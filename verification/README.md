# A verified model of the ucore laboratory kernel

This project models the parts of the kernel whose correctness is hardest to see: its memory allocators, its
priority queue and stride scheduler, its file-system image builder together with the kernel's reader of such
images, its device-tree reader, and its number printer and parser. Each is written in the form of the code:
objects whose methods overwrite memory, loops with invariants, and specification functions about which the
theorems are proved. `dafny verify dfyconfig.toml` checks everything.

## What is modelled

**SLOB heap** (`Extents`, `SlobMemory`, `SlobAccount`, `SlobAlloc`, `SlobKmalloc`). Addresses count units of
16 bytes; memory maps an address to the header or the big-block descriptor last stored there. The free list is a
cyclic chain in that memory, and `ListOk` says that it is one address-ordered cycle through the static `arena` and
`slobfree` in which no block touches the next. `Accounted` says that free and live units split the pages obtained.
Such a list is determined by the units it covers, so kfree after kmalloc restores it block for block. The page
allocator is a list of answers it will give: any answer that is not a run of fresh aligned pages clear of the arena
counts as NULL, so the theorems hold for every behaviour of the allocator.

Three things the code does are stated as they are. A request of one unit, made when the arena is the first block after
the rover, hands out the arena itself; only kmalloc(0) can make it, and on a new heap kfree of that pointer never
returns. The pointer of kmalloc(0) can also be that of a big block. kmalloc panics exactly for sizes from 4064 to 4079,
because the header is added once before the size test and once after. find_order shifts rounding down, so big blocks
are too small exactly for sizes strictly between 4096·2^k and 4097·2^k, and for 2 GiB and more, where the size is cut to
an int.

**Skew heap and stride scheduling** (`SkewTree`, `SkewHeap`, `Stride`). Nodes are entries of a memory with
parent, left and right pointers. The pointer operations are proved to compute the functional merge and removal of a
tree; on trees the node set, the heap order, and an amortised logarithmic bound on the recursive calls, for removals of
any node, are proved. The
stride comparison on wrapped 32-bit strides is the order of the true passes as long as those differ by at most
2^31−1, that bound is tight, and scheduling processes that only leave never exceeds it. So the picks of
processes that start level are in proportion to their priorities, up to the rounding of BIG_STRIDE / priority and one
round.

**Lists and best fit** (`ListRing`, `BestFit`). The doubly linked rings of list.h; and the page allocator, whose free
path leaves a well-formed, coalesced list exactly if the list was empty or some free block lies above the freed run.
Otherwise its loop visits the entry it has just added and links it after itself, and the same pages can be allocated
twice, which is proved too.

**SLUB caches** (`SlubModel`, `Slub`, `SlubKmalloc`). All caches in one memory, each slab with an intrusive freelist,
three rings per cache. The slab header of each live object's page names its cache.

**SFS images** (`SfsModel`, `SfsEntry`, `SfsFreeMap`, `Sfs`, `SfsKernel`, `SfsTool`). Cache blocks and cached inodes are
named by their position in the order of allocation. The image is a map from block numbers to contents. `bug` and a
failed assertion are a false result. Building and reading are proved against each other: an inode in a finished image
resolves every index to the block appended there, and that block holds what was written. The kernel agrees exactly up to
1036 blocks per file and panics beyond, since it has no double-indirect level. The kernel's read returns the right
bytes, but leaves the file's size too large whenever what it passed plus what it returned exceeds the file. Directory
entries lose the last bytes of names longer than 252, because the writer passes the size of the name field as the size
of the record. `SfsTool` puts the two programs together: an image built from a directory of files, in which the kernel
looks files up by name and reads them.

**Device tree** (`DeviceTree`, `Dtb`). Trees, their tokens (sections 5.4 and 5.5 of the Devicetree Specification), the
tokens' big-endian bytes, and the reader over those bytes. The flag that marks a memory node is still set in its first
child. So for given nodes the reader finds the right region, whatever their properties, exactly if every memory
node's first child is itself a memory node.

**Numbers as text** (`NumText`). printnum and strtol, with 64-bit wrap-around in strtol. The documentation of strtol allows
a prefix 0X in base 16; the code does not know it, and the model follows the code.

The smaller modules `Powers`, `Sequences`, `Requests` and `ByteSeq` hold shared definitions.

## Model

| member | source | states |
|---|---|---|
| `Extents.CanonicalUnique` | lab4/kern/mm/kmalloc.c:158-194 | a sorted list without touching blocks is determined by the set of units it covers |
| `Extents.JoinCover` | lab4/kern/mm/kmalloc.c:174-188 | two-sided coalescing covers exactly the old units and the freed ones, stays sorted and adds their number |
| `Extents.ReleaseUndoesCarve` | lab4/kern/mm/kmalloc.c:97-194 | freeing what was cut from a block restores the list |
| `SlobAccount.FreeDetermined` | lab4/kern/mm/kmalloc.c:228-294 | live blocks and pages determine the free list completely |
| `SlobAccount.Conservation` | lab4/kern/mm/kmalloc.c:114-139 | free units without the arena plus live units are 256 times the pages obtained |
| `SlobAlloc.SlobHeap.constructor` | lab4/kern/mm/kmalloc.c:76-77 | the initial heap, the arena alone, meets the invariant |
| `SlobAlloc.SlobHeap.SlobFree` | lab4/kern/mm/kmalloc.c:158-194 | NULL changes nothing; otherwise, for any block that is not free, the arena too while it is off the list, the list becomes the coalesced list with the block, the scan ends at the block below, the cycle invariant holds, memory outside the free units is untouched |
| `SlobAlloc.SlobHeap.FindBelow` | lab4/kern/mm/kmalloc.c:168-172 | the scan from the rover ends, at the block below or at the wrap |
| `SlobAlloc.SlobHeap.Grow` | lab4/kern/mm/kmalloc.c:144-152 | one request for one page; after it some block has at least a page, merged or not |
| `SlobAlloc.SlobHeap.SlobAlloc` | lab4/kern/mm/kmalloc.c:97-156 | terminates; the first fitting block after the rover is carved, after a page was added if nothing fitted, and the block before it becomes the rover; the block has the bytes asked for and less than 16 more; a page is asked for, once, exactly if nothing fits, and NULL is returned exactly if then there is none; live memory is untouched; the arena is handed out exactly in the stated case, and what memory and list are then |
| `SlobMemory.LoneScan` | lab4/kern/mm/kmalloc.c:168-172 | freeing a block that is alone on the list makes the scan go on for ever |
| `SlobMemory.ArenaBack` | lab4/kern/mm/kmalloc.c:114-190 | taking the arena from a list of several blocks and freeing it restores memory exactly |
| `SlobAlloc.ReleaseFits` | lab4/kern/mm/kmalloc.c:150-153 | a freed block leaves a block at least as long, so the scan after growth succeeds |
| `SlobAlloc.AllExamined` | lab4/kern/mm/kmalloc.c:141-144 | back at the rover, no listed block fits |
| `SlobOrder.FindOrder` | lab4/kern/mm/kmalloc.c:220-226 | the least order k with size < 4097·2^k |
| `SlobOrder.KmallocCapacity` | lab4/kern/mm/kmalloc.c:244-248 | the pages of a big block hold the request if and only if it is below 2 GiB and not in a gap |
| `SlobOrder.GapExample` | lab4/kern/mm/kmalloc.c:220-226 | 8193 bytes get 8192 |
| `SlobBig.SmallIsNotBig` | lab4/kern/mm/kmalloc.c:274-289 | a page-aligned small block is never the start of a big block |
| `SlobKmalloc.Kmalloc.Kmalloc` | lab4/kern/mm/kmalloc.c:228-258 | panics exactly for 4064 to 4079; else a new small block whose units behind the header have the bytes asked for and less than 16 more, or a descriptor and fresh pages of the found order, each placed at the first fit; NULL, with nothing live changed, exactly if the page allocator cannot serve it; what the heap is after the arena is handed out |
| `SlobKmalloc.Kmalloc.FindBig` | lab4/kern/mm/kmalloc.c:277-280 | finds the descriptor of a big block and the one before it, if there is one |
| `SlobKmalloc.Kmalloc.Kfree` | lab4/kern/mm/kmalloc.c:266-294 | a small block leaves the live blocks; a big block gives back exactly its pages and its descriptor; the arena goes back on the list; it does not return exactly for the arena while that is alone on the list |
| `SlobKmalloc.Kmalloc.AllocThenFree` | lab4/kern/mm/kmalloc.c:228-294 | returns if and only if the arena is not handed out while it is its own successor; then the heap is restored exactly, up to a page by which it grew, if and only if the request is not for 0 bytes with a big block right behind the block after the rover; for the arena memory, list and rover are restored |
| `SlobKmalloc.FirstZeroHangs` | lab4/kern/mm/kmalloc.c:168-172 | on a new heap kfree of what kmalloc(0) returned does not return |
| `SlobKmalloc.ClashReached` | lab4/kern/mm/kmalloc.c:228-294 | a run of two requests after which kmalloc(0) returns the pointer of a big block |
| `SlobKmalloc.Kmalloc.Run` | lab4/kern/mm/kmalloc.c:228-294 | over every run of kmalloc and kfree what clients hold is what the requests and their answers make it and is exactly the blocks in use, each small one with the bytes asked for, each big one of the order found, no two sharing a unit, and no unit is lost; it stops in a panic at the first request of 4064 to 4079 bytes and at no other, only a request of 0 bytes can hand out the arena or a pointer already held, and as long as no page is asked for every other request is granted |
| `SkewTree.MergeOrdered` | lab6/libs/skew_heap.h:29-59 | merging keeps heap order |
| `SkewTree.RootMinimal` | lab6/libs/skew_heap.h:29-59 | the root of a heap-ordered tree is minimal |
| `SkewTree.RemoveIds` | lab6/libs/skew_heap.h:69-85 | removal takes exactly the node away |
| `SkewTree.RemoveOrdered` | lab6/libs/skew_heap.h:69-85 | removing any node, root or interior, keeps heap order |
| `SkewTree.MergeCost` | lab6/libs/skew_heap.h:29-59 | recursive calls plus the change of potential are at most 2(log2(size a + 1) + log2(size b + 1)) |
| `SkewTree.RemoveCost` | lab6/libs/skew_heap.h:69-85 | removing any node: recursive calls plus the change of potential are at most 5 log2(size + 1) |
| `SkewTree.RunCost` | lab6/libs/skew_heap.h:29-85 | m insertions and removals of any nodes on a heap of at most n nodes make at most m(5 log2(n+1) + 2) recursive calls, and m(4 log2(n+1) + 2) if only roots are removed |
| `SkewTree.RunCostByLength` | lab6/libs/skew_heap.h:29-85 | so any run of m operations makes at most m(5 log2(m+1) + 2) recursive calls |
| `SkewHeap.SkewHeap.Merge` | lab6/libs/skew_heap.h:29-59 | the pointer merge builds the functional merge, every child's parent pointer right, in exactly the counted calls; the first root stays the root only if it compares as less, and the root's old left child becomes its right one |
| `SkewHeap.SkewHeap.Insert` | lab6/libs/skew_heap.h:61-67 | the heap with the new node, which becomes the root unless the old one compares as less, root's parent NULL, other memory untouched |
| `SkewHeap.SkewHeap.Remove` | lab6/libs/skew_heap.h:69-85 | the heap without the node, root or interior, all links right |
| `SkewHeap.SkewHeap.Run` | lab6/libs/skew_heap.h:29-85 | every run of inserts and removals of any nodes refines the set it describes, the root is minimal, and the recursive calls made keep the amortised bound for the largest set held |
| `Stride.CompIsOrder` | lab6/kern/schedule/default_sched_stride.c:16-28 | wrapped strides compare as the true passes if those differ by at most BIG_STRIDE |
| `Stride.WindowTight` | lab6/kern/schedule/default_sched_stride.c:12-28 | no larger difference is safe: agreement within b holds if and only if b is at most BIG_STRIDE |
| `Stride.NewcomerMisordered` | lab6/kern/schedule/default_sched_stride.c:16-28 | a concrete pair further apart that compares the wrong way |
| `Stride.RunQueue.Enqueue` | lab6/kern/schedule/default_sched_stride.c:67-85 | the process joins the heap, links and count right; the order is kept if all passes are within BIG_STRIDE of one another, and the process is then the next to be picked unless the one before it has a smaller pass |
| `Stride.RunQueue.PickNext` | lab6/kern/schedule/default_sched_stride.c:120-139 | a process of least pass, or none exactly if the queue is empty; a priority of 0 becomes 1, and the pass rises by d with d·priority ≤ BIG_STRIDE < (d+1)·priority |
| `Stride.RunQueue.Dequeue` | lab6/kern/schedule/default_sched_stride.c:95-106 | the process leaves, and heap order is back even though its stride was raised in place |
| `Stride.RunQueue.Leave` | lab6/kern/schedule/default_sched_stride.c:95-106 | any queued process can leave, and the queue stays valid |
| `Stride.RunQueue.Schedule` | lab6/kern/schedule/sched.c:87-113 | the next process has a least pass among all runnable ones, and the spread stays within BIG_STRIDE |
| `Stride.RunQueue.Run` | lab6/kern/schedule/sched.c:87-113 | over any number of rounds, with processes leaving for good, the runnable ones stay within BIG_STRIDE, every pick moves a process by its weight, and of two that started level, with priorities p and q, the picks c and d obey c·q·(BIG_STRIDE + 1 − p) ≤ BIG_STRIDE·p·(d + q) |
| `Stride.FairShares` | lab6/kern/schedule/default_sched_stride.c:120-139 | picks times weight differ by at most BIG_STRIDE between two processes that started level, and the picks are in proportion to the priorities up to rounding and one round |
| `Stride.ShareBound` | lab6/kern/schedule/default_sched_stride.c:133-137 | weighted shares within BIG_STRIDE of each other give that proportion, for any weights that are BIG_STRIDE divided by the priorities |
| `ListRing.AddRing` | lab2/libs/list.h:141-146 | adding after an entry of a ring gives the ring with the entry there, both ways round |
| `ListRing.DelRing` | lab2/libs/list.h:154-158 | deleting an entry gives the ring without it |
| `BestFit.PageAllocator.constructor` | lab2/kern/mm/best_fit_pmm.c:63-67 | the empty allocator is valid |
| `BestFit.PageAllocator.InitMemmap` | lab2/kern/mm/best_fit_pmm.c:69-107 | the run becomes one block at its place in address order, flags and count updated, exactly the run's reference counts cleared |
| `BestFit.PageAllocator.FindBest` | lab2/kern/mm/best_fit_pmm.c:116-131 | the lowest-addressed among the smallest blocks that fit and have at most nr_free pages, or none exactly if there is none, on any list that can be walked forwards |
| `BestFit.PageAllocator.AllocPages` | lab2/kern/mm/best_fit_pmm.c:109-149 | the front of the lowest-addressed among the smallest fitting blocks is carved off, NULL exactly if none fits (nr_free + 1 is a sound bound), order and flags kept, reserved flags and reference counts untouched, the count down by exactly n |
| `BestFit.PageAllocator.FreePages` | lab2/kern/mm/best_fit_pmm.c:151-213 | the list stays valid and coalesced exactly if it was empty or a free block lies above the run; otherwise the new entry is its own predecessor; reserved flags kept, exactly the run's reference counts cleared |
| `BestFit.PageAllocator.AllocThenFree` | lab2/kern/mm/best_fit_pmm.c:109-213 | allocating and freeing again restores a list without touching blocks exactly if the block was split or was not the last of several |
| `BestFit.PageAllocator.Run` | lab2/kern/mm/best_fit_pmm.c:109-213 | over every run of allocations and frees, until one lies above every free block, the allocator stays valid, clients hold what the requests and answers make it, no page twice or free, and no page is lost; each request got the best block of a free list of all pages not held then, or nothing exactly if no block was large enough; it stops exactly at the first request for no pages or the first free above every block |
| `BestFit.JoinedMeans` | lab2/kern/mm/best_fit_pmm.c:183-212 | then it covers exactly the old pages and the run, sorted, with no contiguous neighbours if there were none |
| `BestFit.MergedIsJoin` | lab2/kern/mm/best_fit_pmm.c:183-212 | merging downwards first or upwards first gives the same list |
| `BestFit.TailBroken` | lab2/kern/mm/best_fit_pmm.c:168-181 | the links left in the tail case: walkable forwards, prev of the entry itself |
| `BestFit.TailStuck` | lab2/kern/mm/best_fit_pmm.c:168-181 | deleting that entry leaves it on the list |
| `BestFit.PageAllocator.DoubleAllocation` | lab2/kern/mm/best_fit_pmm.c:109-213 | after a run is freed above every free block, two requests for its size return the same pages |
| `SlubModel.LinkWordsApart` | lab2/kern/mm/slub.c:52-63 | link words of neighbouring slots do not overlap if and only if objects have at least 8 bytes |
| `SlubModel.ListsMove` | lab2/kern/mm/slub.c:203-214 | moving a slab to the list its count asks for restores all lists: each slab on exactly one |
| `Slub.SlubSystem.KmemCacheCreate` | lab2/kern/mm/slub.c:106-161 | NULL exactly without a page, for an order other than 0 or objects over 4048 bytes, the page given back; else a cache of n objects per slab with size·n ≤ 4048 < size·(n+1); the invariant is kept for objects of at least 8 bytes |
| `Slub.SlubSystem.KmemCacheGrow` | lab2/kern/mm/slub.c:29-73 | a fresh page becomes an empty slab at the end of the empty list, its freelist all its slots from the last to the first; other slabs, lists and freelists unchanged |
| `Slub.SlubSystem.ThreadSlots` | lab2/kern/mm/slub.c:50-63 | the loop builds a freelist of all slots of the page, the last first, and no others |
| `Slub.SlubSystem.ChooseSlab` | lab2/kern/mm/slub.c:173-192 | the first slab of the partial list; else the first of the empty list; else a new one, asked for exactly then; nothing else changes |
| `Slub.SlubSystem.KmemCacheAlloc` | lab2/kern/mm/slub.c:166-220 | the first partial slab, else the first empty one, else a new page gives the head of its freelist, for a new page its last slot; that slot was not live and becomes live, the slab goes to the end of the list its count asks for, and nothing else changes; a page is asked for exactly if the cache has no free slot, and NULL exactly if then there is none |
| `Slub.SlubSystem.KmemCacheFree` | lab2/kern/mm/slub.c:225-264 | exactly this object ends and becomes the head of its slab's freelist, the slab goes to the end of the list its count asks for, no other slab changes; panics exactly for an object of another cache, with nothing changed |
| `Slub.DrainStarts` | lab2/kern/mm/slub.c:273-279 | with no active objects the full and partial lists are empty, so the assertions hold |
| `Slub.SlubSystem.Drain` | lab2/kern/mm/slub.c:282-293 | the loop that deletes while walking ends with every slab of the cache gone and no other |
| `Slub.SlubSystem.KmemCacheDestroy` | lab2/kern/mm/slub.c:269-298 | panics exactly with active objects; else gives back exactly total_slabs slab pages and the cache page, other caches, their slabs and counts unchanged |
| `Slub.SlubSystem.LiveGeometry` | lab2/kern/mm/slub.c:86-94 | a live object lies in its page past the header, and rounding its address down finds its slab |
| `Slub.SlubSystem.LiveApart` | lab2/kern/mm/slub.c:139-148 | two live objects never overlap, whatever their caches |
| `SlubKmalloc.Fls` | lab2/kern/mm/kmalloc.c:34-46 | the position of the highest set bit; 32 for a negative int |
| `SlubKmalloc.Ffs` | lab2/kern/mm/kmalloc.c:18-27 | the position of the lowest set bit, for any int |
| `SlubKmalloc.CacheIndex` | lab2/kern/mm/kmalloc.c:130-139 | the least power of two that is at least the size and at least 32 |
| `SlubKmalloc.BestSize` | lab2/kern/mm/kmalloc.c:130-139 | objects of the best cache hold the request, have at least 32 bytes and, above that, less than twice the request |
| `SlubKmalloc.GeneralCaches.KmallocInit` | lab2/kern/mm/kmalloc.c:91-111 | the i-th cache has objects of 2^(i+5) bytes; panics exactly if the page allocator has not seven pages |
| `SlubKmalloc.GeneralCaches.Kmalloc` | lab2/kern/mm/kmalloc.c:116-149 | NULL for 0 and above 2048; else an object of the best cache, at least as long as asked for and, above 32 bytes, less than twice that, or NULL exactly if that cache is full and no page is left |
| `SlubKmalloc.GeneralCaches.Kfree` | lab2/kern/mm/kmalloc.c:154-181 | the header names the cache: freeing a live object never panics and ends exactly it |
| `SlubKmalloc.GeneralCaches.Run` | lab2/kern/mm/kmalloc.c:116-181 | over every run what clients hold is what the requests and their answers make it and is exactly the live objects, each with the bytes asked for, none overlapping, no panic; requests for 0 or more than 2048 bytes get NULL, and all others are granted if no page was asked for or the page allocator had one for each request |
| `Requests.LastDecides` | lab2/kern/mm/kmalloc.c:116-181 | what clients hold after a run: a pointer is held, with the size asked for, exactly if the last request about it gave it out |
| `SfsModel.IndexBlocksClosed` | lab8/tools/mksfs.c:376-379 | n blocks need 0, 1 or 2+ceil((n−1036)/1024) index blocks |
| `SfsModel.EntryStep` | lab8/tools/mksfs.c:411-420 | storing at the end of the last entry block extends the file's map by that number and nothing else |
| `SfsModel.NextLeafStep` | lab8/tools/mksfs.c:417-418 | a new entry block listed in the double-indirect block keeps the map |
| `SfsModel.ResolveMapped` | lab8/tools/mksfs.c:397-426 | resolving index i through direct, indirect and double-indirect blocks gives the i-th appended number |
| `SfsModel.HashBits` | lab8/tools/mksfs.c:37-51 | the hash is the highest ten bits of the lowest 32 of the product with the golden ratio prime |
| `Sfs.CreateSfs` | lab8/tools/mksfs.c:223-253 | refused exactly below 4 blocks of 4096 bytes (after cutting to 32 bits of block count); else a valid image of as many whole blocks as fit, at most 524288, with as many free-map blocks as it takes 32768 bits each, and an empty root directory at block 1 |
| `Sfs.Builder.SfsAllocIno` | lab8/tools/mksfs.c:173-180 | fails exactly when full; next_ino + unused_blocks stays ninos |
| `Sfs.Builder.AllocCacheBlock` | lab8/tools/mksfs.c:182-190 | a zeroed block with a new number, hung on the chain of hash 0 |
| `Sfs.Builder.SearchCacheBlock` | lab8/tools/mksfs.c:192-199 | finds a block if and only if it exists and its number hashes to 0 |
| `Sfs.Builder.UpdateCache` | lab8/tools/mksfs.c:382-395 | allocates for 0, keeps a matching pointer without searching, and else succeeds only in that case |
| `Sfs.Builder.AppendBlock` | lab8/tools/mksfs.c:397-426 | fails exactly for 32768 blocks or no room for index blocks; else this file's map grows by the number, no other changes, nothing is searched, and exactly the index blocks of the closed form are allocated |
| `Sfs.Builder.AllocCacheInode` | lab8/tools/mksfs.c:201-212 | an empty file with a number of its own; other files unchanged |
| `Sfs.Builder.SearchCacheInode` | lab8/tools/mksfs.c:214-221 | the latest inode for the host number, or NULL exactly if there is none |
| `Sfs.Builder.AddBlock` | lab8/tools/mksfs.c:522-525 | numbering, writing and appending one block; all other contents stay readable |
| `Sfs.Builder.OpenFile` | lab8/tools/mksfs.c:516-530 | succeeds exactly if only the last read is short and all blocks and index blocks fit; then the file's blocks are the reads; type, links and number kept |
| `Sfs.Builder.AddEntry` | lab8/tools/mksfs.c:428-437 | fails exactly if the directory is none, the name is too long or there is no room; else one more block of the directory with the entry's bytes, one more link of the file modulo 2^16 and of no other |
| `Sfs.Builder.AddFile` | lab8/tools/mksfs.c:449-457 | a host inode met before is shared, a new one is copied into an inode of type file; one more link of that inode and no other; no other file changes; fails exactly if the directory is none, for a name or file too long, a short read not last, or no room |
| `Sfs.Builder.WriteMap` | lab8/tools/mksfs.c:317-337 | the free map marks exactly next_ino ≤ k < ninos |
| `Sfs.Builder.CloseSfs` | lab8/tools/mksfs.c:312-349 | free map, superblock, every index block and every inode are in the image, and no file data was overwritten |
| `Sfs.LowNumbers` | lab8/tools/mksfs.c:123-125 | superblock and free map share no number with anything given out |
| `SfsEntry.EntryRoundTrip` | lab8/tools/mksfs.c:432-434 | the kernel reads the inode number always, and the name if and only if it has at most 252 bytes |
| `SfsFreeMap.FillMap` | lab8/tools/mksfs.c:317-335 | one free-map block: bit b of word w set if and only if number i + 32w + b is free |
| `SfsFreeMap.CountFree` | lab8/kern/fs/sfs/sfs_fs.c:218-223 | the set bits of the whole map number ninos − next_ino |
| `SfsKernel.MountCheck` | lab8/kern/fs/sfs/sfs_fs.c:218-224 | the assertion at mount time holds for every finished image |
| `SfsKernel.GivenOutInUse` | lab8/kern/fs/sfs/sfs_inode.c:78-84 | every number the builder gave out counts as in use |
| `SfsKernel.ImageResolves` | lab8/tools/mksfs.c:312-426 | end to end: the inode block in the image resolves index i to the i-th appended block, which holds the i-th written data |
| `SfsKernel.KernelResolves` | lab8/kern/fs/sfs/sfs_inode.c:256-374 | the kernel finds that block for indices below 1036 and panics for all others |
| `SfsKernel.FileLaidOut` | lab8/kern/fs/sfs/sfs_inode.c:353-374 | of every file whose blocks are full but the last, the kernel finds the first 1036 blocks as its bytes and panics for the rest |
| `SfsKernel.ReadRange` | lab8/kern/fs/sfs/sfs_inode.c:706-758 | head, whole blocks and tail together are the bytes asked for, unless they reach past 1036 blocks |
| `SfsKernel.IoRead` | lab8/kern/fs/sfs/sfs_inode.c:670-767 | a panic exactly for a directory or a range reaching past 1036 blocks, invalid exactly for offsets out of range or an end past 2^63; else as many bytes of the file as asked for, fewer only up to its end or the largest file's, and the size the inode is left with |
| `SfsKernel.ReadKeepsSize` | lab8/kern/fs/sfs/sfs_inode.c:760-765 | when reading leaves the size alone: a whole-file read does if and only if the file is shorter than one block |
| `SfsKernel.DirLaidOut` | lab8/kern/fs/sfs/sfs_inode.c:396-414 | a directory of at most 1036 entries is found by the kernel block by block as the builder wrote it |
| `SfsKernel.DirentSearch` | lab8/kern/fs/sfs/sfs_inode.c:440-470 | the inode number in the first used slot with the name, or none exactly if no slot has it; and the last unused slot before it |
| `SfsTool.CreateImg` | lab8/tools/mksfs.c:544-559 | building an image from a directory succeeds exactly if there is room for everything, no file or name is too long and only last reads are short; then nothing is ever searched, names beginning with a dot are left out, there is one inode of type file for each host inode, holding its first source and with as many links as sources modulo 2^16, the root has two, and the root's blocks are the two dots and then one entry per file in order |
| `SfsTool.ShownVisible` | lab8/tools/mksfs.c:475-480 | the files shown are exactly those of the directory whose names do not begin with a dot |
| `SfsTool.ShownConcat` | lab8/tools/mksfs.c:475-482 | the files shown keep their order |
| `SfsTool.Find` | lab8/kern/fs/sfs/sfs_inode.c:440-470 | the kernel's lookup of any name in a built root directory: the root for the dots, else the inode of the first file whose name cut to 252 bytes it is, or none |
| `SfsTool.FindSource` | lab8/kern/fs/sfs/sfs_inode.c:440-470 | a file of a built directory is found by its full name if and only if that has at most 252 bytes and the first entry with it names the same inode |
| `SfsTool.SourceReadBack` | lab8/tools/mksfs.c:466-530 | the kernel reaches all blocks of a file if and only if there are at most 1036, and what it reaches is what went in from the first source with that host inode |
| `SfsTool.ReadSource` | lab8/kern/fs/sfs/sfs_inode.c:773-793 | end to end: reading any range of a file of a built image never takes it for a directory and returns the source's bytes, all that were asked for up to the file's end, or panics exactly past 1036 blocks |
| `DeviceTree.ScanTree` | lab2/kern/driver/dtb.c:51-99 | scanning the tokens of a tree is reading the tree with the flag |
| `DeviceTree.SafeReads` | lab2/kern/driver/dtb.c:51-99 | the first reg of at least 16 bytes of a memory node, or none, if every memory node's first child is a memory node |
| `DeviceTree.ChildlessSafe` | lab2/kern/driver/dtb.c:51-99 | memory nodes without children meet that condition |
| `DeviceTree.RightIffSafe` | lab2/kern/driver/dtb.c:51-99 | for given nodes the answer is right for all properties if and only if the condition holds |
| `Dtb.Fdt32Meaning` | lab2/kern/driver/dtb.c:29-32 | a loaded word converted is the big-endian value of its bytes |
| `Dtb.Fdt64Meaning` | lab2/kern/driver/dtb.c:34-37 | likewise for eight bytes |
| `Dtb.FirstToken` | lab2/kern/driver/dtb.c:51-99 | stepping over a token ends at the next token boundary |
| `Dtb.MagicWord` | lab2/kern/driver/dtb.c:120-126 | the loaded magic number is right if and only if the blob begins with the bytes d0 0d fe ed |
| `Dtb.ExtractMemoryInfo` | lab2/kern/driver/dtb.c:40-101 | the byte reader terminates at the end token or at a word that is no token, and finds what reading the tokens finds |
| `Dtb.DtbInit` | lab2/kern/driver/dtb.c:107-143 | nothing without the magic number; else what scanning the tokens finds, for a tree the reader's answer, right if the condition holds |
| `NumText.Sink.PrintNum` | lab8/libs/printfmt.c:53-69 | emits the padding and then the digits, and nothing else |
| `NumText.DigitsValue` | lab8/libs/printfmt.c:53-69 | the digits are digits of the base with small letters and have the number as their value |
| `NumText.NoLeadingZero` | lab8/libs/printfmt.c:53-69 | the digits of a positive number do not begin with 0 |
| `NumText.Strtol` | lab8/libs/string.c:215-271 | for every string and base: where it stops and which 64-bit value it returns |
| `NumText.DigitPlace` | lab8/libs/string.c:248-259 | a character is a digit if and only if it is in 0-9 or a-z, whatever its case, and its value is its place there |
| `NumText.ReadLiteral` | lab8/libs/string.c:200-271 | with base 0, or 16 for hexadecimal, all of a literal is read, after blanks, with either sign, 0x, 0 or no lead, and letters of either case; its value is the number, negated after a minus |
| `NumText.CapitalPrefix` | lab8/libs/string.c:210-236 | unlike its documentation says, 0X is no prefix: only the 0 is read |
| `NumText.PrintThenRead` | lab8/libs/printfmt.c:53-69 | max(width, digits) characters, all read back by strtol, with the number's 64-bit value; exact below 2^63 |

## Left out

- Interrupt disabling around allocator calls: each call is one atomic step.
- Alignment in slob_alloc (`align` other than 0), `ksize`, and the stub functions: no caller uses them.
- SlobKmalloc.Kmalloc.Run: ends when a request of 0 bytes hands out the arena or a pointer that is already held, after which the heap's lists are no longer described.
- Stride.RunQueue.Schedule: the current process must be within BIG_STRIDE of those queued; the code does not check this, and Stride.WindowTight shows that it is what the comparison needs. Time slices, and processes that join later with an old stride, are not modelled; Stride.NewcomerMisordered shows what the last can do.
- BestFit.PageAllocator.FreePages: the code's assertion that the pages are neither reserved nor block heads is a precondition.
- Slub.SlubSystem.KmemCacheCreate: for objects below 8 bytes nothing is said about later use of the cache, because the links of neighbouring slots then overlap (SlubModel.LinkWordsApart) and the code does not check for it; size 0, a division by zero, is excluded.
- Slub.SlubSystem.KmemCacheFree: freeing a pointer that is not a live object is not modelled; the code cannot detect it.
- The cache's name field and the statistics printing of SLUB.
- Self-tests (`basic_check`, `best_fit_check`, `kmalloc_check`), the first-fit allocator, and the copies of the modelled files in other laboratories.
- Host input and output of mksfs: directory traversal below the top level, symbolic links, stat and pwrite failures; a directory is given as a list of files with what successive reads return.
- The free map's words are sequences of bits and inode and index blocks are typed contents; their byte layout is modelled only for directory entries.
- SfsKernel.KernelResolves: leaves out creation of blocks by the kernel (an index equal to the number of blocks), writing, truncation and locking.
- SfsKernel.IoRead: leaves out disk transfer errors and locking.
- SfsKernel.MountCheck: leaves out the magic number, device size and memory allocation checks of mounting.
- Dtb.ExtractMemoryInfo: blocks that are cut off inside a token or have no token that stops the reader are excluded; on them the code reads past the blob.
- `vprintfmt` and its arguments; negative numbers are printed there.
- NumText.Sink.PrintNum: leaves out bases below 2, for which the code does not terminate or divides by zero, and above 16.
- NumText.Strtol: signed overflow is modelled as 64-bit wrap-around, which the C language leaves undefined.
