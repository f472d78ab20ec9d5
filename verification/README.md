# Verified models of the osv kernel

osv is a small teaching kernel for x86-64 written in C.  This project models the parts of
it whose correctness is global, that is, where one function is right only because all
others keep some invariant, and proves that invariant and what follows from it.

Each part is one or more modules in a file of the same name.  A file `XSpec.dfy` holds
values, invariants and lemmas; the file `X.dfy` beside it holds the class or state machine
that follows the C code and is proved against them.

| part | files | main results |
|---|---|---|
| page allocator | `Dyadic`, `BuddySpec`, `BuddyCanonical`, `Buddy`, `BootBitmap` | all pages are tiled by aligned blocks; no two free buddies; the free lists are a function of the set of free pages; allocation fails exactly when no aligned run is free |
| block cache | `BlockCache` | one header per block, which addresses its slice of its page; counts equal the references held; headers go eight at a time, exactly when the page is clean and nobody refers to any of the eight |
| journal | `JournalSpec`, `JournalCrash`, `JournalLog`, `Journal` | after a crash at any block write of any run, recovery gives exactly the transactions committed so far; no header that the journal holds is ever freed; the cache equals the disk when the journal is idle |
| user `malloc` | `MallocSpec`, `Malloc` | one address-ordered ring of blocks that do not touch; blocks tile the heap; the list is a function of the free units; `free` undoes `malloc` |
| page tables | `PageTableSpec`, `PageTableRelease`, `PageTable` | the four-level walk refines a flat map; mapping, copying and sharing change exactly the pages they should, in all address spaces; tear-down releases everything once, and the tables it frees can be used again; the permission of a page is that of its last entry |
| file system data | `SfsSpec`, `Sfs` | every block has one owner; the bitmap marks exactly the blocks that a pointer refers to; a write changes exactly the bytes written; a read returns the bytes of the file, and all of them exactly when no block is missing |
| directories | `Directory` | over every sequence of operations link counts equal the entries that name an inode, and as long as no cut name has met its own stored part, names are unique and a search agrees with an abstract map |
| scheduler | `SchedSpec`, `Sched`, `SchedRuns`, `SchedOrder` | for all interleavings: one processor per thread, one list per thread, no thread queued before it is switched out, first come first served, for dispatch and for signals; a thread that yields gives way to all that were ready; a waiter does not own the lock it gave up and owns it again before it runs; a thread that has exited never runs, and is freed exactly when the next thread has run before |
| monitors | `Monitors` | mutual exclusion of the sleep lock, first-in first-out order of the bounded queue, no lost wakeups |
| radix tree | `RadixSpec`, `Radix` | insert, lookup and remove refine a map; counts and parent links agree with the slots; a node is free or in the tree, never both or neither; removal frees exactly the nodes that become empty, insertion adds only nodes on the way |
| slab allocator | `Slab` | the free chain is exactly the unused slots; objects never overlap; free finds slab and slot from the address |
| descriptors | `Descriptors` | reference counts equal the descriptors of all processes; a pipe end is open exactly while a descriptor refers to it |
| disk driver | `Ide` | for all interleavings: requests complete once, in order; no deadlock, and every request is completed after a bounded number of steps |

How the C code is represented:

- Memory that the code shares through pointers is a sequence or an array indexed by page,
  frame, unit, block or node number, held in a field of a class.  A ghost sequence beside it
  (`own`, `loc`) gives every element the one structure that may refer to it.  That is how
  the absence of sharing is stated without quantifying over pointers.
- Sequences stand for the linked lists of kernel/list.c.  `Wrappers` and `Sequences` hold what
  several parts share.
- Block headers, which the kernel allocates and frees, are keys of a map; a key may be used
  again after its header has been freed.
- Results of code outside a part are parameters: whether `sbrk` grants memory and where
  (`reply`), whether a page or a block is available (`room`, `pages`), whether a path was
  found (`found`).
- The scheduler and the disk driver are state machines.  A step is one action between two
  uses of a lock, and the theorems range over all runs of steps.  For the two monitors a
  step is one critical section; the scheduler model shows why giving up the lock inside
  `sched_sched` makes a wait part of the section before it.
- Crash recovery is not implemented in the kernel (kernel/fs/jbd.c:266-271).  `Replay`
  follows the journal layout of include/kernel/jbd.h.
- Integers are unbounded except where width matters: the size computation of `malloc` is
  written in 64-bit arithmetic, block numbers have 32 bits, entries of page tables are cut
  at the fields of the hardware format.

Properties that the documentation or a comment promises and that the code does not have
are kept as lemmas with a concrete input and an exact condition: `BootBitmap.BitmapFind`,
`Malloc.SbrkBacked`, `Sfs.ReadComplete`, `Directory.CheckedAddUnique`,
`Radix.RemoveExact`, `Descriptors.DescriptorTables.MakePipe`,
`SchedRuns.ZombieFreedExactly`, with the inputs
`BootBitmap.BitmapFindCanMiss`, `Malloc.HugeRequestShrinks`, `Sfs.ReadCanStopShort`,
`Directory.LongNameTwice`, `Radix.RemoveCanAlias`, `Descriptors.PipeCanLeak`.

## Model

| member | source | states |
|---|---|---|
| `Dyadic.AlignedIsMod` | kernel/mm/pmem.c:388-402 | alignment by repeated halving, which the proofs use, is divisibility of the page number by the block size, which the code tests |
| `Dyadic.BuddyParity` | kernel/mm/pmem.c:449-467 | the buddy by parity of the block index is the other half of the aligned block of twice the size |
| `BuddySpec.BuddyIsHead` | kernel/mm/pmem.c:470-503 | the page where the buddy of a block starts is itself the first page of a block, so merging never trusts stale fields of an interior page |
| `BuddySpec.BlocksDisjoint` | kernel/mm/pmem.c:418-446 | blocks with different heads share no page |
| `BuddySpec.SplitKeeps` | kernel/mm/pmem.c:418-446 | cutting a block in two keeps partition, reference counts, lists and the absence of free buddies |
| `BuddySpec.MergeKeeps` | kernel/mm/pmem.c:470-503 | joining two free buddies keeps them too |
| `BuddySpec.SplitSameUse` | kernel/mm/pmem.c:418-446 | a split changes neither which pages are free nor any allocated block |
| `BuddySpec.MergeSameUse` | kernel/mm/pmem.c:470-503 | nor does a merge |
| `BuddyCanonical.RunInsideBlock` | kernel/mm/pmem.c:418-446 | without two free buddies every aligned free run lies inside one listed block |
| `BuddyCanonical.FreeListsDetermined` | kernel/mm/pmem.c:418-617 | two allocator states with the same free pages have the same blocks on every free list |
| `BuddyCanonical.RunIffListed` | kernel/mm/pmem.c:418-446 | an aligned free run of 2^k pages exists if and only if a list of order k or more is not empty |
| `BuddyCanonical.NoRunIffNoneListed` | kernel/mm/pmem.c:543-586 | no aligned run of the least power of two for n pages is free if and only if all lists from that order on are empty |
| `BuddyCanonical.AllocFreeRestores` | kernel/mm/pmem.c:543-617 | allocating a block and freeing it puts the same blocks back on every free list; their order within a list may differ, because a freed block goes to the end |
| `Buddy.GetMaxPageOrder` | kernel/mm/pmem.c:388-402 | returns the largest order that is aligned at the start and does not pass the end |
| `Buddy.GetMinPageOrder` | kernel/mm/pmem.c:405-415 | returns the least order whose blocks hold n pages |
| `Buddy.PhysicalMemory.FindBuddy` | kernel/mm/pmem.c:449-467 | returns the other half of the parent block, or none past the end of memory |
| `Buddy.PhysicalMemory.FindFreeblock` | kernel/mm/pmem.c:418-446 | fails exactly when all lists from the order on are empty; otherwise the first block of the first such list, with one upper half left on each list below it, and no change in which pages are free |
| `Buddy.PhysicalMemory.NAlloc` | kernel/mm/pmem.c:543-586 | fails exactly when no aligned run of the least sufficient power of two is free; otherwise exactly one such run becomes allocated and every other page keeps its use; the invariant and the canonical form hold afterwards |
| `Buddy.PhysicalMemory.MergeBlock` | kernel/mm/pmem.c:470-503 | the block grows over all free buddies, which leave their lists, until its buddy is not free; no page changes its use |
| `Buddy.PhysicalMemory.NFree` | kernel/mm/pmem.c:589-617 | exactly the pages of the block become free; other allocated blocks are untouched; the invariant and the canonical form hold afterwards |
| `Buddy.PhysicalMemory.IncRefcnt` | kernel/mm/pmem.c:697-710 | only the count changes; no page changes its use |
| `Buddy.PhysicalMemory.DecRefcnt` | kernel/mm/pmem.c:713-729 | the page is freed exactly when its last reference goes |
| `Buddy.PhysicalMemory.FreeblocksInsertRange` | kernel/mm/pmem.c:516-530 | tiles the range exactly with free blocks, each the largest that fits, and leaves no two free buddies |
| `Buddy.PhysicalMemory.FreeblocksInit` | kernel/mm/pmem.c:318-369 | afterwards the free pages are exactly those with a clear bit in the boot bitmap, in canonical form |
| `BootBitmap.BitmapFind` | kernel/mm/pmem.c:279-296 | the result is the number of set bits before the first run of n clear bits, so it is the start of that run if and only if no clear bit lies below it |
| `BootBitmap.BitmapFindCanMiss` | kernel/mm/pmem.c:279-296 | a bitmap on which the result is an allocated page |
| `JournalSpec.BmapRoundTrip` | kernel/fs/jbd.c:84-124 | the block map in the journal decodes to the block numbers that were logged |
| `JournalSpec.RedoIsIdempotent` | kernel/fs/jbd.c:148-165 | applying a transaction over a disk on which part of it has been applied gives the same disk |
| `JournalCrash.CommitCrashAtomic` | kernel/fs/jbd.c:57-172 | after any number of the writes of one commit, recovery gives the old home blocks up to the header write and the new ones from then on |
| `JournalCrash.CrashAtomic` | kernel/fs/jbd.c:57-172 | after any number of writes of any run of transactions, recovery gives exactly the home blocks after those whose header had been written |
| `JournalCrash.RunDone` | kernel/fs/jbd.c:57-172 | a completed run leaves the home blocks of all its transactions and an erased journal |
| `JournalCrash.CommittedMonotone` | kernel/fs/jbd.c:57-81 | a later crash never recovers fewer transactions |
| `BlockCache.OneHeader` | kernel/bdev.c:64-87 | a block has at most one header |
| `BlockCache.HeaderData` | kernel/bdev.c:64-87 | the header of a block addresses slice `blk` mod 8 of cached page `blk` div 8, and that slice is what every reader sees of the block |
| `BlockCache.FreedIff` | kernel/bdev.c:300-313 | giving up a reference frees a header if and only if it belongs to the same page, the page is clean and no header of the page has a reference left; no dirty header and none that is referred to is ever freed |
| `BlockCache.CleanIsDisk` | kernel/bdev.c:64-124 | without dirty headers every slice of every cached page equals its block on the device |
| `BlockCache.BlockDevice.InitBlkHeaders` | kernel/bdev.c:64-87 | a page without headers gets one for each of its eight blocks, clean and without references; no reader sees a difference |
| `BlockCache.BlockDevice.GetBlk` | kernel/bdev.c:257-291 | returns the header of the block with one more reference, reading the page in if needed; the search always finds it; contents, marks and other headers are unchanged |
| `BlockCache.BlockDevice.BlocksZeroRef` | kernel/bdev.c:89-104 | true if and only if nobody refers to any header of the page |
| `BlockCache.BlockDevice.FreeBlkHeaders` | kernel/bdev.c:106-124 | frees all eight headers of a clean page and none of a dirty one; every header it frees is clean, as the code asserts |
| `BlockCache.BlockDevice.ReleaseBlk` | kernel/bdev.c:300-313 | one reference less, and the headers of the page go exactly as `FreedIff` says; counts still equal references |
| `BlockCache.BlockDevice.SetBlkDirty` | kernel/bdev.c:234-244 | the mark of one block changes; setting it marks the page too, clearing it leaves the page mark alone; a page with a dirty header is itself marked |
| `BlockCache.BlockDevice.WriteBlk` | kernel/bdev.c:315-337 | one device write: the block on disk becomes the cached one and is clean |
| `Journal.JournaledDevice.CrashAnywhere` | kernel/fs/jbd.c:57-172 | in every valid state, a crash at any past write recovers the transactions that had been committed by then |
| `Journal.JournaledDevice.IdleCacheIsDisk` | kernel/fs/jbd.c:148-165 | with the journal idle no header is dirty, every slice of every cached page equals its block on disk, and so does what readers see of blocks that are not cached |
| `Journal.JournaledDevice.LoggedHeld` | kernel/fs/jbd.c:259-263 | a header in the list of the open transaction is allocated, its count includes the journal, and it is the only header of its block: the list never dangles |
| `Journal.JournaledDevice.GetBlk` | kernel/bdev.c:257-291 | file system callers get a header at any time without disturbing the open transaction |
| `Journal.JournaledDevice.ReleaseBlk` | kernel/bdev.c:300-313 | and give it up without freeing a header that the journal holds |
| `Journal.JournaledDevice.WriteBlk` | kernel/fs/jbd.c:241-264 | a header is recorded once however often its block is written, and the journal takes one reference to it |
| `Journal.JournaledDevice.ModifyBlk` | kernel/fs/jbd.c:241-264 | changes the block for every reader, and keeps every dirty header in the list of the open transaction |
| `Journal.JournaledDevice.WriteJournalBlks` | kernel/fs/jbd.c:84-124 | writes the data and the block map to the journal area and changes no home block |
| `Journal.JournaledDevice.ApplyJournal` | kernel/fs/jbd.c:148-165 | writes every logged block home and gives up every reference of the journal; nothing stays dirty |
| `Journal.JournaledDevice.CommitJournal` | kernel/fs/jbd.c:57-81 | issues exactly the writes of a commit, in the order that crash atomicity is proved for |
| `JournalLog.CommitIssued` | kernel/fs/jbd.c:57-81 | the four phases together issue the writes of one commit, in order, and leave nothing held and nothing dirty |
| `Journal.JournaledDevice.EndTxn` | kernel/fs/jbd.c:221-238 | the logged updates become one committed transaction; what readers see equals the disk; the references of others are as before |
| `MallocSpec.BlocksDisjoint` | lib/malloc.c:25-103 | blocks with different headers share no unit |
| `MallocSpec.FreeListDetermined` | lib/malloc.c:25-103 | two heaps with the same free units have the same free list and the same sizes on it |
| `Malloc.NunitsExact` | lib/malloc.c:74-103 | the size test refuses exactly the requests above 2^64 - 32; for all others the unit count was computed without wrap-around and is the least that holds the bytes and a header |
| `Malloc.SbrkBacked` | lib/malloc.c:55-71 | the memory that `morecore` takes as received lies below the new break if and only if the byte count is not read as a negative number; the break never falls below the start of the heap |
| `Malloc.HugeRequestShrinks` | lib/malloc.c:55-71 | for every heap of at least one unit, a request that passes the size test and moves the break down by one |
| `Malloc.MallocFreeRestores` | lib/malloc.c:25-103 | freeing a block that was just allocated from the list restores the list exactly |
| `Malloc.StopsAtPlace` | lib/malloc.c:26-52 | the walk of `free` stops at the entry after which the block belongs, and nowhere else |
| `Malloc.Heap.Free` | lib/malloc.c:26-52 | the block leaves the live set, other live blocks keep header and units, and the ring is again sorted with no two neighbours touching |
| `Malloc.Heap.FindPlace` | lib/malloc.c:26-52 | terminates at the list entry that precedes the block in address order |
| `Malloc.Heap.Morecore` | lib/malloc.c:55-71 | grows the heap by exactly the units received, or fails without change |
| `Malloc.Heap.Malloc` | lib/malloc.c:74-103 | fails exactly when the size is refused, or no free block is large enough and memory cannot be had; otherwise returns a block of enough bytes, from units that were free, disjoint from all live blocks, and grows the heap only when no block fitted |
| `PageTableSpec.PathRoundTrip` | arch/x86_64/include/arch/mmu.h:143-154 | the indices of the page number made of four indices are those four |
| `PageTableSpec.PageRoundTrip` | arch/x86_64/include/arch/mmu.h:143-154 | the page number made of the indices of a page number is its low 36 bits |
| `PageTableSpec.OnLoc` | arch/x86_64/kernel/mm/vpmap.c:58-101 | every table met on a walk has the space, level and prefix that the walk says, so walks of different pages or spaces meet only in their common part |
| `PageTableSpec.HungFlat` | arch/x86_64/kernel/mm/vpmap.c:58-101 | hanging in a new empty table changes no mapping of any address space |
| `PageTableSpec.PutFlat` | arch/x86_64/kernel/mm/vpmap.c:114-134 | writing a leaf entry changes the mapping of one page, in the spaces that share the table |
| `PageTableSpec.DataFlat` | arch/x86_64/kernel/mm/vpmap.c:332-359 | the contents of frames that are not tables do not matter to any mapping |
| `PageTable.PageTables.Create` | arch/x86_64/kernel/mm/vpmap.c:261-284 | a new space in which nothing is mapped, in one frame that was free; no mapping of another space changes |
| `PageTable.PageTables.CopyKernelMapping` | arch/x86_64/kernel/mm/vpmap.c:362-372 | the space then sees the kernel's part exactly as the kernel space does, and nothing else changes |
| `PageTable.PageTables.FindPte` | arch/x86_64/kernel/mm/vpmap.c:58-101 | returns the last-level table of the page; allocating on the way, or failing part-way, changes no mapping of any space and no data frame; it takes at most three free frames, all as tables for that page, and none when the table exists |
| `PageTable.PageTables.MapPages` | arch/x86_64/kernel/mm/vpmap.c:114-134 | the pages of the range map consecutive frames; their entries are present, writable and user exactly as the permission says, with no other flag, and so is every access through the four levels; every other page of every space is unchanged; after a failure a prefix of the range is mapped and memory is exhausted; frames taken have all become tables of that space for pages of the range |
| `PageTable.PageTables.LookupVaddr` | arch/x86_64/kernel/mm/vpmap.c:376-396 | gives the frame of the flat map plus the offset, or the error when the page is not mapped |
| `PageTable.MapTranslates` | arch/x86_64/kernel/mm/vpmap.c:114-134 | after a range is mapped, an address inside it translates to the first frame plus its page offset in the range, with its offset in the page; every other 48-bit address, in this and in every other space, translates as before |
| `PageTable.InnerOpen` | arch/x86_64/kernel/mm/vpmap.c:58-101 | in every state, every table entry on the way to a table is present, writable and user |
| `PageTable.LeafDecides` | arch/x86_64/kernel/mm/vpmap.c:58-134 | a mapped page can be written, or used outside the kernel, through all four levels if and only if its last entry says so |
| `PageTable.PageTables.Copy` | arch/x86_64/kernel/mm/vpmap.c:332-359 | the destination maps a copy for exactly the pages mapped in the source, each in a different frame that was free, with equal contents and exactly the permission given; nothing else changes; every frame taken is a table of the destination for a page of the range, or one of the copies; the errors say why and how far it got |
| `PageTable.CopyIsolated` | arch/x86_64/kernel/mm/vpmap.c:332-359 | a copied frame is mapped at its page and nowhere else in user space, so later writes on one side are not seen on the other |
| `PageTable.PageTables.Destroy` | arch/x86_64/kernel/mm/vpmap.c:138-190 | releases what `DestroyLog` names and leaves the kernel's part and all other spaces as they were; the tables of the space are then free frames, those of no other space are, and all invariants hold |
| `PageTableRelease.SubLogExact` | arch/x86_64/kernel/mm/vpmap.c:138-190 | the nested loops over a table release exactly the pages mapped and the tables reached below it |
| `PageTableRelease.DestroyPages` | arch/x86_64/kernel/mm/vpmap.c:318-329 | a reference is dropped for a page if and only if it is a mapped user page, and for its frame |
| `PageTableRelease.DestroyTables` | arch/x86_64/kernel/mm/vpmap.c:318-329 | a table is released if and only if it serves user pages of the space |
| `PageTableRelease.DestroyOnce` | arch/x86_64/kernel/mm/vpmap.c:318-329 | nothing is released twice |
| `PageTableRelease.OnePlace` | arch/x86_64/kernel/mm/vpmap.c:138-190 | a frame serves as a table in one place only, so no frame is freed twice as a table |
| `PageTableRelease.StackLimits` | arch/x86_64/kernel/mm/vpmap.c:138-190 | for the range of a tear-down the computed loop limits are all 512 entries of every table and all slots of the root but the kernel's |
| `PageTableRelease.DestroyFrames` | arch/x86_64/kernel/mm/vpmap.c:318-329 | the frames given back as tables are exactly the tables of the space |
| `SfsSpec.SetPtrAt` | kernel/fs/sfs/sfs.c:708-810 | storing a block number in an indirect block changes that number and no other |
| `SfsSpec.PtrIsBlockNo` | kernel/fs/sfs/sfs.c:725-772 | the pointer that the proofs use for block k is the number that the inode and the bytes of its indirect blocks give |
| `SfsSpec.CellIsByteAt` | kernel/fs/sfs/sfs.c:813-862 | the byte that the proofs use is byte o % 512 of block o / 512 |
| `SfsSpec.StoreCell` | kernel/fs/sfs/sfs.c:834-862 | writing a data block changes that block of that file only |
| `SfsSpec.IndirectInv` | kernel/fs/sfs/sfs.c:708-810 | entering a new block in an indirect block keeps every pointer in range with a block of its own |
| `SfsSpec.IndirectCell` | kernel/fs/sfs/sfs.c:708-810 | and changes no byte of any file |
| `Sfs.FileSystem.BmapAllocElement` | kernel/fs/sfs/sfs.c:303-322 | sets the first clear bit of the range, or finds that there is none |
| `Sfs.FileSystem.AllocDataBlock` | kernel/fs/sfs/sfs.c:496-530 | returns the first free block, which no pointer refers to, zeroed; it is then the one block marked without a pointer; no file changes; fails exactly when all bits that the search covers are set |
| `Sfs.FileSystem.GetDataBlock` | kernel/fs/sfs/sfs.c:708-810 | returns the block of the file at the index, allocated if asked for: the address in the inode for the first 12, and the little-endian number in the bytes of the indirect block at (k - 12) / 128 for the others; the block does not exist exactly when that number or the indirect address is 0 and no allocation is asked for; no byte of any file, no size and no other block pointer changes, also when allocation stops between the two levels; before and after, a block is marked if and only if a pointer refers to it |
| `Sfs.FileSystem.WriteData` | kernel/fs/sfs/sfs.c:834-862 | exactly the bytes written change, in that file only, where byte o of a file is byte o % 512 of its block o / 512; it stops early only when the disk is full; the size becomes the end of the write if that is larger |
| `Sfs.FileSystem.ReadData` | kernel/fs/sfs/sfs.c:813-831 | returns the bytes of the file from the offset on, read off its blocks, up to the count, the end of the file or the first missing block, and changes nothing |
| `Sfs.ReadComplete` | kernel/fs/sfs/sfs.c:813-831 | a read returns all that was asked for within the file if and only if no block of the range is missing |
| `Sfs.ReadCanStopShort` | kernel/fs/sfs/sfs.c:813-831 | a valid file of 513 bytes without its first block, of which a read of 513 bytes returns none |
| `Sfs.ReadBack` | kernel/fs/sfs/sfs.c:813-862 | reading back a completed write gives the bytes written |
| `Directory.PutFind` | kernel/fs/sfs/sfs.c:550-600 | a new entry is found under the name that is stored, and no other name refers to anything else |
| `Directory.RemovedFind` | kernel/fs/sfs/sfs.c:603-638 | removing an entry leaves all other names as they were; a unique name then refers to nothing |
| `Directory.FindUnique` | kernel/fs/sfs/sfs.c:677-705 | without duplicates a name refers to the one entry that has it |
| `Directory.CheckedAddUnique` | kernel/fs/sfs/sfs.c:399-430 | after the existence check, adding a name keeps names unique if and only if it has at most 27 characters or its first 27 are not yet a name |
| `Directory.LongNameTwice` | kernel/fs/sfs/sfs.c:550-600 | a longer name can be added twice and is found neither time |
| `Directory.DirectoryTree.SearchIsMap` | kernel/fs/sfs/sfs.c:677-705 | in every state that the operations reach without a clash, names in a directory are unique and a search gives what the abstract map says |
| `Directory.DirectoryTree.EntryIsMap` | kernel/fs/sfs/sfs.c:677-705 | and every live entry is the one that the map has for its name |
| `Directory.DirectoryTree.SearchDir` | kernel/fs/sfs/sfs.c:677-705 | returns the inode of the first live entry with the name, 0 if there is none |
| `Directory.DirectoryTree.IsDirEmpty` | kernel/fs/sfs/sfs.c:641-674 | true if and only if no entry is live |
| `Directory.DirectoryTree.Create` | kernel/fs/sfs/sfs.c:399-430 | an existing name is refused; otherwise the first unused inode gets one link and one entry in the first free slot, and this fails if and only if all inodes are in use or the directory has no slot left; the map gets the stored name; names clash, and are then no longer unique, if and only if the name is longer than 27 characters and its first 27 are there already; every link count still equals the number of entries |
| `Directory.DirectoryTree.Link` | kernel/fs/sfs/sfs.c:1154-1181 | one more entry, one more link and one more name in the map, unless the name exists or the directory has no slot left; names clash under the same condition |
| `Directory.DirectoryTree.Unlink` | kernel/fs/sfs/sfs.c:433-493 | one entry, one link and one name less, and the inode goes with its last link; refused without change exactly when the name is missing, has the wrong type, or is a directory that is not empty |
| `Sched.KeepStep` | kernel/sched.c:52-112 | every step of every processor keeps the invariant |
| `Sched.Always` | kernel/sched.c:52-112 | the invariant holds in every state that any run reaches |
| `Sched.OneProcessor` | kernel/sched.c:62-112 | no thread runs on two processors |
| `Sched.OneList` | kernel/synch.c:178-229 | the list node of a thread is on one list at most, and once |
| `Sched.OneScheduler` | kernel/sched.c:62-84 | at most one processor is between taking and releasing the scheduler lock, although one thread takes it and another releases it |
| `Sched.SchedulerHeld` | kernel/sched.c:62-84 | the scheduler lock is held exactly while some processor is between taking and releasing it, so it is never left behind |
| `Sched.DispatchSafe` | kernel/sched.c:87-112 | the thread switched to runs nowhere else and, if it was queued, is in state READY, as the code asserts |
| `Sched.WakeSafe` | kernel/sched.c:52-60 | a thread that gave up its lock inside the scheduler is not queued before it has been switched out |
| `Sched.ReapSafe` | kernel/sched.c:79-83 | a thread that is freed is a zombie that runs nowhere and is on no list |
| `Sched.WaiterKept` | kernel/synch.c:178-215 | a waiter that is switched out is on the waiter list, on the ready queue, or in the hands of a thread that is about to queue it |
| `Sched.OnlyLocksBlock` | kernel/sched.c:52-112 | a processor can always go on unless its thread waits for a lock that is taken |
| `Sched.FirstComeFirstServed` | kernel/sched.c:87-112 | a thread that is k-th on the ready queue is still there after up to k dispatches, moved up by one place for each |
| `Sched.DispatchedInTurn` | kernel/sched.c:87-112 | after exactly k dispatches the next processor that takes a thread off the queue runs that thread |
| `SchedRuns.LocksExact` | kernel/sched.c:71-73 | in every reachable state a lock is free before it is taken, is released by its owner, by a plain release or inside the scheduler, and changes hands in no other step |
| `SchedRuns.ReleasedInWait` | kernel/sched.c:71-73 | a waiter that is about to switch, is switched out or is on its way back does not own the lock it gave up |
| `SchedRuns.WaitReacquires` | kernel/synch.c:178-199 | the first time that a thread runs after a wait, it owns the lock of the condition variable |
| `SchedRuns.ExitIsFinal` | kernel/thread.c:77-82 | a thread that exits never runs again, on any processor, until it has been freed |
| `SchedRuns.ZombieFreedExactly` | kernel/thread.c:94-100 | a thread that has exited can be freed in some run if and only if the thread that is switched to has run before; one that starts does not look at the one that ran before it |
| `SchedRuns.ZombieFreedFirst` | kernel/sched.c:79-83 | a thread that has run before frees the zombie before it does anything else |
| `SchedRuns.SwitchRuns` | kernel/sched.c:87-112 | a switch lets the head of the ready queue run, or the idle thread of the processor, in state RUNNING, and concerns no other processor and no other thread |
| `SchedRuns.NoThreadLost` | kernel/sched.c:52-112 | a thread that is not running, not idle and no zombie is on the ready queue, on a waiter list, or in the hands of a thread that is about to queue it |
| `SchedOrder.YieldGivesWay` | kernel/sched.c:62-112 | a thread that yields runs again only after all threads that were ready have been dispatched, and it after them |
| `SchedOrder.WaitersInOrder` | kernel/synch.c:178-213 | a thread that waits behind k others does not run before the k-th signal, and moves up by one place with each |
| `SchedOrder.SignalQueues` | kernel/synch.c:202-215 | before the thread that signals runs on, the first waiter has joined the end of the ready queue |
| `SchedOrder.CreateQueues` | kernel/sched.c:52-60 | before the thread that creates another runs on, the new one has joined the end of the ready queue |
| `Monitors.SleepLock.Acquire` | kernel/synch.c:115-128 | the lock is taken if and only if it was free, otherwise the thread joins the waiters; at most one thread holds it |
| `Monitors.SleepLock.TryAcquire` | kernel/synch.c:98-113 | likewise without waiting |
| `Monitors.SleepLock.Release` | kernel/synch.c:130-141 | the lock is free and the first waiter has been woken |
| `Monitors.SleepLock.NoLostWakeup` | kernel/synch.c:115-141 | whenever the lock is free while threads wait, a woken thread is still to check again |
| `Monitors.BoundedQueue.Insert` | kernel/bbq.c:10-28 | inserts if and only if there is room, wakes the first reader, and keeps what was removed a prefix of what was inserted |
| `Monitors.BoundedQueue.Remove` | kernel/bbq.c:31-52 | removes if and only if there is an item, and returns items in the order of insertion |
| `Monitors.BoundedQueue.NoLostWakeup` | kernel/bbq.c:10-52 | whenever a reader (writer) sleeps while there are items (room), a woken reader (writer) is still to check again |
| `RadixSpec.FitsIsBelow` | kernel/radix_tree.c:70-77 | an index has only digits of the tree if and only if it is not above the maximum index |
| `RadixSpec.DigitsRoundTrip` | kernel/radix_tree.c:79-84 | the level indices of an index below 2^30 and the index determine each other |
| `RadixSpec.RaisedGet` | kernel/radix_tree.c:105-122 | a new level keeps every binding |
| `RadixSpec.HungGet` | kernel/radix_tree.c:86-103 | a new empty node changes no binding |
| `RadixSpec.LeafSetGet` | kernel/radix_tree.c:124-140 | setting the slot of an index changes its binding and no other |
| `RadixSpec.DroppedGet` | kernel/radix_tree.c:217-231 | dropping an empty node changes no binding |
| `RadixSpec.NoOtherNodes` | kernel/radix_tree.c:232-236 | below an empty root there are no nodes, so nothing is lost when the root is freed |
| `Radix.RadixTree.Lookup` | kernel/radix_tree.c:165-177 | returns the binding of the index |
| `Radix.RadixTree.FindParent` | kernel/radix_tree.c:86-103 | returns the node that holds the index; creating nodes, or failing part-way, changes no binding |
| `Radix.RadixTree.Insert` | kernel/radix_tree.c:179-200 | binds an index that was free and changes the binding of no other index; the tree grows no higher than the index needs, and new nodes are on the way to the index or above the old root; both errors leave the map unchanged and say why |
| `Radix.RadixTree.Remove` | kernel/radix_tree.c:202-238 | returns and deletes the one binding of the index cut to the digits of the tree; a node on the way is freed if and only if it and all nodes below it on the way had one child, and the tree becomes empty exactly when that holds up to the root; no other node changes its place |
| `Radix.RemoveExact` | kernel/radix_tree.c:202-238 | removal does what is documented if and only if the index is not above the maximum or nothing is bound at the cut index |
| `Radix.RemoveCanAlias` | kernel/radix_tree.c:202-238 | a tree in which removing index 64 removes index 0 |
| `Slab.LayoutFits` | kernel/mm/kmalloc.c:64-111 | for every object size a slab has room for its header, the index array and at least 128 objects; one more object does not fit, and one page less does not hold 128 |
| `Slab.IndexOfAddr` | kernel/mm/kmalloc.c:223-254 | the slot that free computes from an address is the one that was allocated |
| `Slab.KmemCache.AllocFree` | kernel/mm/kmalloc.c:184-254 | freeing what was just allocated restores the chain of every slab and, unless a new slab had to be made, every slab itself |
| `Slab.ObjectsApart` | kernel/mm/kmalloc.c:64-111 | objects in different slots, of one slab or two, do not overlap |
| `Slab.KmemCache.SlabCreate` | kernel/mm/kmalloc.c:64-111 | a new slab whose chain visits all its slots; all its pages are linked to it; other slabs are unchanged |
| `Slab.KmemCache.Alloc` | kernel/mm/kmalloc.c:184-220 | fails exactly when no slab has a free slot and no pages can be had; otherwise takes one slot that was free; a slab is on the full list if and only if its chain is empty |
| `Slab.KmemCache.Free` | kernel/mm/kmalloc.c:223-254 | the slot of the address goes back to the chain of its slab, found through its page |
| `Descriptors.DescriptorTables.Open` | kernel/syscall.c:287-329 | a new file with one reference on the lowest free descriptor from 2 on, if and only if the path leads to a file, such a descriptor is free and a file structure is unused; otherwise the error that says which, and no change |
| `Descriptors.DescriptorTables.Dup` | kernel/syscall.c:697-739 | one more reference to the same file on the lowest free descriptor, or an error without change |
| `Descriptors.DescriptorTables.Close` | kernel/syscall.c:333-364 | one reference less; the file is freed, and that end of its pipe alone closed, if and only if no descriptor of any process refers to it any more |
| `Descriptors.DescriptorTables.Fork` | kernel/proc.c:205-249 | the child has the parent's descriptors, every file has one reference more for each of them, and all counts still agree |
| `Descriptors.DescriptorTables.CloseAll` | kernel/proc.c:341-357 | no descriptor of the process is left, others are untouched, and all counts still agree |
| `Descriptors.DescriptorTables.MakePipe` | kernel/syscall.c:755-802 | succeeds if and only if two files are unused and two descriptors free, with both ends on the two lowest; the counts still agree if and only if it does not run out of descriptors after making the files, and what is then lost is those two files |
| `Descriptors.PipeCanLeak` | kernel/syscall.c:755-802 | a valid state with two unused files and one free descriptor, in which making a pipe loses both files |
| `Descriptors.DescriptorTables.FindLowestNullFd` | kernel/syscall.c:249-283 | the lowest free descriptor, or -1 when there is none |
| `Descriptors.PipeEndUsed` | kernel/pipe.c:67-86 | for an open end, a descriptor that refers to it |
| `Descriptors.PipeEndOpen` | kernel/pipe.c:67-86 | an end of a pipe is open if and only if some descriptor of some process refers to it |
| `Ide.InvAlways` | kernel/drivers/ide.c:63-149 | the invariant holds after every run of submitters, interrupts and handler steps |
| `Ide.CompletedInOrder` | kernel/bdev.c:198-217 | requests are completed once each, in the order of submission; one that is not completed yet is on the queue or in the hands of the interrupt handler |
| `Ide.ReturnsAfterCompletion` | kernel/bdev.c:198-217 | a submitter returns only after its request was completed |
| `Ide.BusyIsFront` | kernel/drivers/ide.c:85-107 | outside the interrupt handler, busy means that the front request is issued and pending |
| `Ide.IssuesFront` | kernel/drivers/ide.c:85-149 | what is issued is the front request, still pending, with no other command on the disk, as the code asserts |
| `Ide.InterruptFindsRequest` | kernel/drivers/ide.c:109-149 | an interrupt that ends a command finds a pending request on the queue, as the code asserts |
| `Ide.NoneForgotten` | kernel/drivers/ide.c:85-107 | while requests are queued and the disk is idle, the submitter of the front request is about to call the driver |
| `Ide.NoDeadlock` | kernel/drivers/ide.c:85-149 | as long as a submitter has not returned, a submitter, the interrupt handler or the disk can go on |
| `Ide.EveryRequestCompletes` | kernel/drivers/ide.c:85-149 | from every reachable state, steps other than new requests and spurious interrupts come to an end, in any order and after a bounded number; then every request has been completed and every submitter has returned |
| `Ide.CanSubmit` | kernel/bdev.c:198-217 | in every reachable state a thread that has not submitted its request yet can do so, and there is a run in which it is completed and the thread returns |

## Left out

- Malloc.Heap.Malloc: requests whose byte count reaches 2^63 are excluded, because `SbrkBacked` shows that the heap is then not backed by memory; `sbrk` is taken as documented in include/lib/usyscall.h.
- Journal.JournaledDevice.EndTxn: a transaction of exactly 128 blocks is excluded, because recording admits it and the commit asserts that there are fewer.
- PageTable.PageTables.MapPages: ranges that run past the end of the address space are excluded, and user pages may only be given frames in use as data, as all callers do.
- PageTable.PageTables.Copy: source and destination are different spaces and the ranges lie in the user part, as in the one caller.
- PageTable.PageTables.Destroy: dropping a reference to a mapped page is recorded; whether the frame is then free depends on other references, which is `Buddy`'s part; tables go back to the free list together, at the end, in the order of the calls.
- Directory.DirectoryTree.Unlink: the inode is freed at its last link; open references that keep it alive longer are not modelled, nor the 16-bit width of the link count.
- Descriptors.DescriptorTables.Open: looking up the path is a parameter.
- Monitors.BoundedQueue.Insert: the counters are unbounded; the C code overflows after 2^31 insertions.
- Sched.KeepStep: idle threads neither wait nor exit, and condition variables are used with spin locks; releasing a sleep lock inside the scheduler would take the scheduler lock twice.
- Unmapping a general range: its loop limits clear more than the range, so no exactness can be claimed; only the tear-down of a whole space is modelled.
- Deleting an inode: its scan of an indirect block has no bound and does not advance over missing blocks.
- Failures of the block cache to get memory, in the journal and in the file system.
- Writing dirty pages back: the thread that a comment names for it is not there, and nothing else clears the mark of a cached page, so the headers of a page that was written once stay.
- Eviction of cached pages, and reference counts of pages in the cache.
- Memory regions, page faults, program loading, path lookup, the console, system calls that only pass arguments on.
- Boot code, assembly, interrupt controllers and port input and output.
