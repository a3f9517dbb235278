# Verified core of the micro kernel

A Dafny model of the parts of the micro kernel whose correctness is hardest to see from the code: the ext2 driver, the
memory management of the amd64 port, the kernel heap, the scheduler with semaphores and `waitpid`, pipes, path resolution
in the virtual file system, the initial user stack, the kernel lists and the C library's `qsort`.

Each file models one component.  Code that changes state in place is a class or a method over mutable state, with the
loops of the original; what it computes is stated with functions on plain values, and the properties that span several
calls are lemmas about these functions.

| files | component |
|---|---|
| `Ext2Volume`, `Ext2Inode`, `Ext2File`, `Ext2Dirent`, `Ext2Dir` | the ext2 file system on a device seen as a sequence of blocks |
| `Paging`, `PhysMem`, `KernelPages`, `VmState`, `VmMap`, `VmDestroy`, `VmAreas` | frames, kernel pages, address spaces and their areas |
| `Heap` | `kmalloc` and `kfree` over linked block headers |
| `Sched`, `Semaphore`, `TaskWait` | threads on several CPUs, semaphores, waiting for children |
| `RingBuffer` | ring buffers and pipes |
| `VfsPath`, `Vfs` | `strtok_r`, canonical paths, mounts, path resolution |
| `UserStack` | arguments, environment and auxiliary vector on a new stack |
| `List`, `Qsort` | linked lists, sorting |
| `Arith`, `Bytes`, `Common` | arithmetic, byte-level and shared helpers |

`dafny verify dfyconfig.toml` checks the whole project.

## Where the code does less than expected

These are proved.  Where the code falls short on some inputs only, so is the exact condition under which it does what one
would expect; for links in the middle of a path it is a sufficient one, because two ways can lead to the same inode.

- A parent in `wait_child` is woken but does not look at its child again: the same stop, continuation or death is told a
  second time by the next call, exactly when it is still pending (`ChildWaitTellsAgain`).
- `wait_any_child` can return 0 after being woken, exactly when no child has a pending change any more, which happens when
  a child stops and continues before the parent runs (`AnyWaitEmpty`, `WokenForNothing`).
- `sched_spawnthread` keeps the queue sound exactly when the thread is neither queued nor on a CPU (`SpawnKeepsExactly`).
- `sem_signal` without a holder wraps the counter around (`SignalNeedsHolder`).  A process may not die while one of its
  threads waits: the semaphore stays sound over a scheduler step exactly when it neither kills nor wakes a waiter
  (`BaseKeepsExactly`), and a killed waiter is made ready again by a later signal (`KilledWaiterRevives`).
- A process that exits hands its children to init without telling them: the tables stay sound exactly when it has no
  children (`ExitKeepsExactly`), and the later death of an orphan does not wake init (`OrphanDeathMissed`).
- The pick loop of `switch_next` ends exactly when the queue holds a ready thread or the CPU's idle thread is ready
  (`PollProgress`, `Spins`).  An idle thread is queued like any other, so another CPU can take it, and its own CPU then
  spins (`IdleTaken`).
- `list_remove` does not change the count, and `list_clear` counts: it ends exactly when the count is not above the number
  of elements (`ClearFor`), so never after a removal from a list with the right count (`RemoveThenClear`), such as the
  children list of a parent that has reaped a child.
- `heap_init` gives its block the size of the whole mapping without deducting the header.  Exactly the last block ends
  behind the mapping (`OnlyLastBehindMapping`); nothing in use lies there exactly when the last block is free and not
  smaller than a header (`InMappingExactly`), which `kfree` always keeps (`FreeStaysMapped`) and `kmalloc` exactly when it
  leaves 64 bytes of the last block (`MallocStaysMapped`, `FirstMallocStaysMapped`).
- `mmu_map` looks at the lower part of an address only: an address above the lower ones is entered as if that part were
  zero (`Map`, `MacrosFind`).
- Mapping keeps an address space sound exactly when the frame is allocated and nothing else in the address space has it
  (`Map`, `SetEntry`).
- Mapping a frame over a mapped user page leaves the old frame in use but owned by nobody, exactly when the new entry is
  not for the same frame (`RemapLeaks`).
- An empty range at or inside the bounds of an area counts as meeting it (`EmptyRangeMeets`).  `vm_map_alloc` puts one where
  `vm_map_allocat` would, exactly when the latter accepts an empty range at the first page (`EmptyRangePlaced`,
  `EmptyRangeExample`).
- Mount points are matched by bytes, not by components: the components of a path are those of the mount point followed by
  those of the rest exactly when the rest is empty or a slash stands at the border (`PrefixOfBytes`, `PrefixExample`).
- Unmounting takes away the earliest mount at the path, so mounting twice at one path and unmounting removes the older
  mount (`MountUmount`).  Every path leads where it led before exactly when the mount path is empty or was unused, or the
  mount that comes first there afterwards has the old root (`MountUmountRestores`).
- Components behind a symbolic link are dropped (`RemainderDropped`).  The whole path is resolved when every link that is
  followed is the last component (`ResolvesFully`); otherwise it need not be (`DroppedExample`).
- `qsort` ends on every array exactly when the comparator puts no two elements each above the other (`EndsExactly`); once
  two such elements are neighbours it runs forever (`ContradictoryComparatorLoops`, `TwoElementsLoopExactly`).
- The length of a directory entry's name is one byte: a new name is found after it was linked exactly when it is shorter
  than 256 bytes.  A longer one shows up as its first `length % 256` bytes, which changes the lookup of such a name exactly
  when no entry before the new one has it and it did not lead to the same inode (`LinkedLookups`, `Link`).
- `ringbuf_read` gives stale bytes, and the buffer seems filled again, exactly when more is read than is queued
  (`Ring.Read`, `LeftExactly`); pipes never do that.

## Model

| member | source | states |
|---|---|---|
| Ext2Volume.RewriteBgds | kernel/dev/ext2/ext2.c:29-40 | the descriptor table on the device is the encoding of the descriptors in memory; no other block changes |
| Ext2Volume.BgdFields | kernel/dev/ext2/ext2.h:61-71 | the fields of an encoded descriptor lie at the offsets of the structure |
| Ext2Volume.DescriptorAt | kernel/dev/ext2/ext2.c:29-40 | descriptor i lies i times 32 bytes into the table |
| Ext2Volume.FirstClear | kernel/dev/ext2/ext2.c:250-253 | the lowest clear bit of a bitmap, or none |
| Ext2Volume.SetBitAdds | kernel/dev/ext2/ext2.c:255-257 | marking a block adds the weight of its bit to its byte of the bitmap and changes no other byte |
| Ext2Volume.TakeBit | kernel/dev/ext2/ext2.c:255-263 | setting one bit and rewriting the descriptors takes exactly that block; the volume stays consistent |
| Ext2Volume.FindFree | kernel/dev/ext2/ext2.c:244-253 | the group and bit of the lowest free block, or none when every group counts none free |
| Ext2Volume.BlocksNumbered | kernel/dev/ext2/ext2.c:263-263 | the first bit of the first group is block 1, and the bits of all groups number the blocks in order |
| Ext2Volume.AllocBlk | kernel/dev/ext2/ext2.c:240-269 | returns the lowest free block, 0 exactly when none is free; afterwards exactly that block is no longer free, the free count drops by one, and only bitmaps and descriptors change |
| Ext2Volume.AllocBlks | kernel/dev/ext2/ext2.c:240-269 | successive calls return strictly increasing, hence distinct, blocks, as many as the descriptors count free |
| Ext2Volume.TakeFree | kernel/dev/ext2/ext2.c:255-263 | taking a clear bit removes exactly one block from the free set |
| Ext2Volume.TakeBlock | kernel/dev/ext2/ext2.c:255-263 | taking a clear bit keeps the volume consistent: roles, counts and descriptors still agree |
| Ext2Inode.InodesNumbered | kernel/dev/ext2/ext2.c:47-49 | inode 1 is the first of the first group, and every inode is followed by the next one of its group or the first of the next |
| Ext2Inode.SlotsInRow | kernel/dev/ext2/ext2.c:50-55 | the slots of a table lie one behind the other from the start of its first block |
| Ext2Inode.SlotsDisjoint | kernel/dev/ext2/ext2.c:42-61 | two inode slots of one table never share a byte |
| Ext2Inode.InodesDisjoint | kernel/dev/ext2/ext2.c:42-83 | two inode numbers in the same block never share a byte |
| Ext2Inode.ReadInode | kernel/dev/ext2/ext2.c:42-61 | returns the inode stored for the number |
| Ext2Inode.WriteInode | kernel/dev/ext2/ext2.c:63-83 | stores the inode and nothing else; the volume stays consistent |
| Ext2Inode.InodeReadBack | kernel/dev/ext2/ext2.c:42-83 | a written inode is read back, every other inode number reads as before |
| Ext2Inode.PutInodeFrame | kernel/dev/ext2/ext2.c:63-83 | writing an inode changes no free block, no other inode and no block outside the inode tables |
| Ext2File.InodeFields | kernel/dev/ext2/ext2.h:73-100 | size, sectors and block pointers are read at their places in the structure |
| Ext2File.Lookups | kernel/dev/ext2/ext2.c:132-166 | twelve blocks are found in the inode, the next through the singly indirect block, and the block x rows and y places further in entry y of the block in entry x of the doubly indirect block |
| Ext2File.MappedStable | kernel/dev/ext2/ext2.c:132-188 | changing data blocks of a file leaves its block map alone |
| Ext2File.FlatWrite | kernel/dev/ext2/ext2.c:449-494 | patching one data block patches the flat contents of the file at that block's position only |
| Ext2File.Parts | kernel/dev/ext2/ext2.c:400-494 | the head, the full blocks and the tail of a transfer are consecutive and cover it |
| Ext2File.WriteSpan | kernel/dev/ext2/ext2.c:474-483 | offset and byte count used in each block by a write, including the empty trailing block |
| Ext2File.ReadSpan | kernel/dev/ext2/ext2.c:427-438 | the same for a read |
| Ext2File.Read | kernel/dev/ext2/ext2.c:400-447 | returns the requested range of the flat contents, cut off at the file size; nothing behind the end |
| Ext2File.ReadBlocks | kernel/dev/ext2/ext2.c:411-443 | the block loop collects exactly the range |
| Ext2File.WriteBlocks | kernel/dev/ext2/ext2.c:461-490 | the block loop replaces exactly the range; no other byte of the file and no other block changes |
| Ext2File.SetInodeBlk | kernel/dev/ext2/ext2.c:190-221 | after setting logical block i its lookup gives the new block and every other lookup is as before, for direct and singly indirect blocks; only direct ones are counted in the sectors |
| Ext2File.CountBlocks | kernel/dev/ext2/ext2.c:379-383 | the number of blocks added is the least that holds the growth |
| Ext2File.AppendBlock | kernel/dev/ext2/ext2.c:385-390 | one round takes a free block and makes it the last block of the file |
| Ext2File.Resize | kernel/dev/ext2/ext2.c:372-398 | within the direct blocks the file gains blocks that were free, keeps its old ones in place, its sectors count all its blocks and cover its size if the old blocks covered the old size; no other file changes, and exactly the new blocks are no longer free |
| Ext2File.Reserve | kernel/dev/ext2/ext2.c:453-456 | before a write the file has blocks for it: untouched if it is long enough, else grown by free blocks; every other file and the contents of all its blocks are kept |
| Ext2File.WriteInPlace | kernel/dev/ext2/ext2.c:449-494 | a write inside the blocks of any mapped file, indirect blocks included, changes exactly the range; every inode, every other block and the free blocks stay |
| Ext2File.Write | kernel/dev/ext2/ext2.c:449-494 | a write at any offset of any mapped file, growing it by free blocks if need be, changes exactly its range of the flat contents; all other inodes and blocks are kept, and exactly the blocks gained are no longer free |
| Ext2File.OtherFileKept | kernel/dev/ext2/ext2.c:372-494 | a write, with or without growth, leaves inode, block map and bytes of every file alone that shares no block with the one written |
| Ext2File.WriteBeside | kernel/dev/ext2/ext2.c:400-494 | reading such a file after the write gives what it held before |
| Ext2File.WriteThenRead | kernel/dev/ext2/ext2.c:400-494 | reading the range just written returns the data, for every mapped file and also across the old end of the file |
| Ext2Dirent.RecordFields | kernel/dev/ext2/ext2.h:110-117 | inode, size, length, type and name are read at their places in a record |
| Ext2Dirent.SlackExactly | kernel/dev/ext2/ext2.c:599-604 | a record has room exactly when the new one fits behind the aligned end of its name |
| Ext2Dirent.SpliceEntries | kernel/dev/ext2/ext2.c:606-611 | splitting a record keeps the block exactly tiled and inserts one entry behind it |
| Ext2Dirent.ZeroedEntries | kernel/dev/ext2/ext2.c:762-765 | zeroing a record but for its size keeps the tiling and blanks one entry |
| Ext2Dirent.FreshBlockEntries | kernel/dev/ext2/ext2.c:631-633 | a block holding one record is exactly tiled by it |
| Ext2Dir.InsertedLookup | kernel/dev/ext2/ext2.c:496-639 | an insertion is seen by lookups of its own name only, and exactly when no earlier entry has that name |
| Ext2Dir.LookupsAfter | kernel/dev/ext2/ext2.c:580-639 | a new name finds its inode, every other name's lookup is unchanged |
| Ext2Dir.LinkedLookups | kernel/dev/ext2/ext2.c:842-863 | the same on lists of entries: a lookup changes exactly when it is that of the stored name, no entry before the new one has it and it did not lead to the same inode |
| Ext2Dir.BlankedOther | kernel/dev/ext2/ext2.c:742-781 | removing an entry leaves the lookup of every other name unchanged |
| Ext2Dir.BlankedSelf | kernel/dev/ext2/ext2.c:742-781 | a removed name is found afterwards only if a later entry has it too |
| Ext2Dir.LinkThenUnlink | kernel/dev/ext2/ext2.c:742-863 | unlinking a name that was new when linked restores the lookup of every name |
| Ext2Dir.Scan | kernel/dev/ext2/ext2.c:503-534 | the record scan over the blocks stops at the first record with the name, or has passed them all |
| Ext2Dir.Lookup | kernel/dev/ext2/ext2.c:496-536 | returns the inode of the first entry with the name, or nothing |
| Ext2Dir.Unlink | kernel/dev/ext2/ext2.c:742-781 | blanks exactly the first entry with the name, reports whether there was one, keeps tiling, inodes, free blocks and all other blocks |
| Ext2Dir.FindRoom | kernel/dev/ext2/ext2.c:587-624 | finds the first record with enough slack, all records before it having too little, exactly when there is one |
| Ext2Dir.FirstRoomUnique | kernel/dev/ext2/ext2.c:587-624 | there is only one first record with enough slack |
| Ext2Dir.AppendInSlack | kernel/dev/ext2/ext2.c:602-617 | inserts one entry by splitting a record; everything else in the directory stays |
| Ext2Dir.AppendInFresh | kernel/dev/ext2/ext2.c:626-636 | adds a block holding the entry alone; exactly that block is no longer free |
| Ext2Dir.AppendDirent | kernel/dev/ext2/ext2.c:580-639 | exactly one entry is inserted: right behind the first record whose slack holds it, or in a new block exactly when there is none; the directory stays exactly tiled and aligned; no free block is lost but a new one |
| Ext2Dir.Link | kernel/dev/ext2/ext2.c:842-863 | exactly one entry with the stored part of the name, inode and type is inserted, at the place `ext2_append_dirent` chooses; a name not found before leads to the inode exactly when it is shorter than 256 bytes; which other lookup changes, and exactly when |
| PhysMem.PhysMem.constructor | kernel/arch/amd64/amd64/mmu.c:240-244 | at boot every frame counts as used |
| PhysMem.PhysMem.AllocPhysAt | kernel/arch/amd64/amd64/mmu.c:246-254 | exactly the given frames become used |
| PhysMem.PhysMem.AllocPhys | kernel/arch/amd64/amd64/mmu.c:256-275 | takes the lowest free frame; fails exactly when there is none |
| PhysMem.PhysMem.FreePhys | kernel/arch/amd64/amd64/mmu.c:277-289 | exactly the given frames become free |
| KernelPages.KernelPages.FindRun | kernel/arch/amd64/amd64/mmu.c:50-100 | finds the lowest run of free pages below present directory entries, across table borders, exactly when there is one |
| KernelPages.KernelPages.FindTables | kernel/arch/amd64/amd64/mmu.c:101-120 | finds the lowest row of absent tables that is long enough, exactly when there is one |
| KernelPages.TablesLeast | kernel/arch/amd64/amd64/mmu.c:106-120 | the number of new tables is the least that holds the pages, and at least one |
| KernelPages.KernelPages.Kalloc | kernel/arch/amd64/amd64/mmu.c:50-144 | the pages returned were all free and exactly they are marked; the lowest run under present tables if there is one, else the lowest row of absent tables, which exactly become present; 0 exactly when neither exists |
| KernelPages.KernelPages.Kfree | kernel/arch/amd64/amd64/mmu.c:146-154 | exactly the given pages become free |
| KernelPages.KernelPages.Kmap | kernel/arch/amd64/amd64/mmu.c:156-160 | one page is entered with frame and flags |
| KernelPages.PageAtAddr | kernel/arch/amd64/amd64/mmu.c:146-160 | the index computations invert the address computation |
| KernelPages.KernelPages.Perform | kernel/arch/amd64/amd64/mmu.c:50-160 | each call of the class on runs in use is an enabled step of the model over which the next two rows range |
| KernelPages.StepKept | kernel/arch/amd64/amd64/mmu.c:50-160 | each allocation, release or mapping keeps the runs in use marked and disjoint |
| KernelPages.LiveRunsDisjoint | kernel/arch/amd64/amd64/mmu.c:50-160 | over every run of calls the pages in use never overlap |
| VmState.WalkAgrees | kernel/arch/amd64/amd64/mmu.c:162-186 | the processor's walk from the root finds the entry that the kernel keeps for the address |
| VmState.UpperRights | kernel/arch/amd64/amd64/mmu.c:162-186 | on the walk to any lower address the upper levels are present, writable and open to users |
| VmState.SetEntry | kernel/arch/amd64/amd64/mmu.c:184-186 | storing an entry changes that entry only, and keeps the address space sound exactly when the frame of a user entry is allocated and nothing else in the address space has it |
| VmMap.MkTable | kernel/arch/amd64/amd64/mmu.c:162-171 | a zeroed table in a frame and at a kernel page that were free, entered in its directory |
| VmMap.MacrosFind | kernel/arch/amd64/amd64/mmu.c:12-15 | the index macros give table and slot of the page, of whatever address |
| VmMap.WalkFinds | kernel/arch/amd64/amd64/mmu.c:173-186 | the processor finds at a lower address the entry in its table and slot |
| VmMap.Map | kernel/arch/amd64/amd64/mmu.c:173-186 | the processor finds at the address the frame with the flags given and the user flag, and at every other page what it found before; exactly one entry changes; the table is made if missing; the address space is sound afterwards exactly when the frame is allocated and nothing else in it has the frame |
| VmMap.Virt2Phys | kernel/arch/amd64/amd64/mmu.c:291-307 | the frame address that the processor finds, 0 outside the lower addresses |
| VmMap.Create | kernel/arch/amd64/amd64/mmu.c:310-346 | an address space with all directories and no table, from frames and pages that were free; all entries of its root but the first are the kernel's |
| VmMap.CopyFrame | kernel/arch/amd64/amd64/mmu.c:369-381 | the copy has the contents of the source frame; the two kernel pages used are given back |
| VmMap.Clone | kernel/arch/amd64/amd64/mmu.c:349-400 | every user page is in the clone at the same place with the same flags and contents, in a frame that was free; nothing else is mapped; all entries of its root but the first are the kernel's; the source is unchanged |
| VmMap.CloneSeen | kernel/arch/amd64/amd64/mmu.c:349-400 | the same as the processor sees it, at every lower address |
| VmDestroy.Destroy | kernel/arch/amd64/amd64/mmu.c:402-439 | every frame and kernel page of the address space is given back exactly once and nothing else is |
| VmDestroy.MapNew | kernel/arch/amd64/amd64/mmu.c:173-186 | mapping a fresh frame where nothing is mapped makes the processor find that frame with the flags at the address, changes no other page, and adds just that frame, and any table made, to the address space |
| VmDestroy.CreateMapDestroy | kernel/arch/amd64/amd64/mmu.c:310-439 | any run of creation, mappings at distinct pages and destruction restores the frame bitmap and the kernel page tables |
| VmDestroy.CloneThenDestroy | kernel/arch/amd64/amd64/mmu.c:349-439 | cloning and destroying the clone restores both as well |
| VmDestroy.RemapLeaks | kernel/arch/amd64/amd64/mmu.c:173-186 | after an entry is overwritten its old frame is in use, and belongs to the address space exactly when the new entry is a user entry for the same frame |
| VmAreas.MeetsIsOverlap | kernel/arch/amd64/amd64/mmu.c:488-526 | the interval test is true exactly when two non-empty ranges share an address |
| VmAreas.FitsIsClear | kernel/arch/amd64/amd64/mmu.c:453-526 | for sizes above 0 the tests of the two allocators agree |
| VmAreas.EmptyRangeMeets | kernel/arch/amd64/amd64/mmu.c:488-526 | an empty range meets an area exactly when the area is not empty and the range lies at or between its bounds |
| VmAreas.EmptyRangePlaced | kernel/arch/amd64/amd64/mmu.c:453-526 | the place `vm_map_alloc` takes for an empty range would be accepted by `vm_map_allocat` exactly when one at the first page would |
| VmAreas.EmptyRangeExample | kernel/arch/amd64/amd64/mmu.c:453-526 | with an area at the first page, `vm_map_allocat` refuses an empty range there and `vm_map_alloc` puts one there |
| VmAreas.AreaList.Alloc | kernel/arch/amd64/amd64/mmu.c:453-486 | takes, for every size, the lowest base from 0x1000 on from which the range shares no address with an area, and says when an empty range meets one nevertheless; fails exactly when that would reach the kernel; the list stays sorted and disjoint |
| VmAreas.AreaList.AllocAt | kernel/arch/amd64/amd64/mmu.c:488-526 | succeeds exactly when the range meets no area; the list stays sorted and disjoint |
| VmAreas.AreaList.AllocArea | kernel/arch/amd64/amd64/mmu.c:528-542 | the wanted place if it is free, else the lowest unless the place was fixed |
| Heap.Heap.constructor | kernel/kern/heap.c:117-127 | one free block over the mapping |
| Heap.Heap.Combine | kernel/kern/heap.c:22-35 | two neighbours become one block; the headers stay linked both ways and tile the heap |
| Heap.Heap.Split | kernel/kern/heap.c:37-59 | a block becomes two; the headers stay linked both ways and tile the heap |
| Heap.Heap.Search | kernel/kern/heap.c:69-90 | the walk finds the lowest free block that is large enough, exactly when there is one |
| Heap.Heap.Kmalloc | kernel/kern/heap.c:61-96 | takes the lowest free block holding the rounded request; null exactly for 0 bytes or when there is none; the heap stays tiled, linked and merged |
| Heap.Heap.Kfree | kernel/kern/heap.c:98-115 | the block is free and merged with free neighbours on both sides; the heap stays tiled, linked and merged |
| Heap.Heap.Perform | kernel/kern/heap.c:61-115 | each call on a heap in use is a step of the model over which the run theorems range |
| Heap.ReleasedInSteps | kernel/kern/heap.c:98-115 | the three steps of `kfree` give the merged block |
| Heap.TakenMerged | kernel/kern/heap.c:61-96 | after an allocation no two neighbours are both free |
| Heap.ReleasedMerged | kernel/kern/heap.c:98-115 | after a release no two neighbours are both free |
| Heap.StepSound | kernel/kern/heap.c:61-115 | each call keeps tiling and merging, and the used blocks are exactly the pointers held by the callers |
| Heap.RunSound | kernel/kern/heap.c:61-115 | the same over every run of calls |
| Heap.MallocServes | kernel/kern/heap.c:61-96 | an allocation gives a pointer nobody held, to at least the bytes asked for and at most 31 more |
| Heap.RoomKept | kernel/kern/heap.c:61-115 | no call changes the bytes at the disposal of another pointer |
| Heap.RoomLasts | kernel/kern/heap.c:61-115 | nor does any run that does not give the pointer back |
| Heap.PayloadClear | kernel/kern/heap.c:61-115 | a live payload lies inside the heap and touches no header, of used or free blocks |
| Heap.LiveDisjoint | kernel/kern/heap.c:61-115 | two live payloads are at least a header apart |
| Heap.AllFreedRestores | kernel/kern/heap.c:61-127 | after any run that gives everything back, in any order, the heap is the single initial free block |
| Heap.OnlyLastBehindMapping | kernel/kern/heap.c:117-127 | in every tiled heap exactly the last block ends behind the mapping |
| Heap.InMappingExactly | kernel/kern/heap.c:117-127 | all headers and used blocks lie in the mapping exactly when the last block is free and not smaller than a header |
| Heap.MallocStaysMapped | kernel/kern/heap.c:61-127 | an allocation keeps that exactly when it grants nothing, does not use the last block, or leaves 64 bytes of it |
| Heap.FirstMallocStaysMapped | kernel/kern/heap.c:61-127 | the first allocation keeps it exactly when it grants nothing or the rounded request is 64 bytes below the mapping |
| Heap.FreeStaysMapped | kernel/kern/heap.c:61-127 | a release always keeps it |
| Sched.FoundConserves | kernel/kern/sched.c:15-35 | the queue loses at most the thread returned; a running head is put back and the idle thread returned |
| Sched.SpawnKeepsExactly | kernel/kern/sched.c:107-111 | spawning keeps the invariant exactly when the thread is neither queued nor on a CPU |
| Sched.StepKeeps | kernel/kern/sched.c:15-111 | every step on any CPU keeps: the threads on the CPUs are distinct, running or just killed, and not queued; the queue has no duplicates and holds ready or dead threads; no runnable thread is lost |
| Sched.QueueMoves | kernel/kern/sched.c:15-35 | a round of picking moves a queued thread forward by exactly one place, nothing else moves it |
| Sched.DispatchedInTime | kernel/kern/sched.c:59-111 | a ready thread at queue index p is dispatched, or dies, within p + 1 rounds of picking of any run |
| Sched.PollProgress | kernel/kern/sched.c:63-66 | a round ends the loop with the first ready thread, shortens the queue, or finds nothing that could end it |
| Sched.Spins | kernel/kern/sched.c:63-66 | without a ready thread in the queue or a ready idle thread no number of rounds ends the loop |
| Sched.IdleTaken | kernel/kern/sched.c:59-98 | a run of two steps after which a CPU runs the idle thread of another, whose pick loop never ends |
| Sched.Scheduler.NextReady | kernel/kern/sched.c:15-35 | the head of the queue, or the idle thread when the queue is empty or its head runs |
| Sched.Scheduler.SwitchNext | kernel/kern/sched.c:59-75 | the loop ends with the first ready thread of the queue, else the idle thread, running on the CPU |
| Sched.Scheduler.SwitchTask | kernel/kern/sched.c:77-98 | the running thread goes to the back of the queue and the next is dispatched; the invariant holds |
| Sched.Scheduler.SpawnThread | kernel/kern/sched.c:107-111 | the thread is ready and last in the queue |
| Sched.Scheduler.ThreadBlock | kernel/kern/thread.c:169-173 | the thread is blocked and not queued, another is dispatched, and nobody else's state changes; the invariant holds |
| Sched.Scheduler.TaskExit | kernel/kern/task.c:179-216 | all threads given are dead, another is dispatched, and nobody else's state changes; the invariant holds |
| Semaphore.SysStepKeeps | kernel/kern/sem.c:17-40 | a step keeps these exactly when it neither kills nor wakes a waiter and is no signal by a thread without the semaphore: waiters are blocked, each queued once, only when the semaphore is exhausted; the count is the number of holders and never above the maximum |
| Semaphore.BaseKeepsExactly | kernel/kern/sem.c:17-40 | a scheduler step keeps the semaphore sound exactly when it neither kills nor wakes a waiter |
| Semaphore.GrantedInTurn | kernel/kern/sem.c:17-40 | the waiter at index p holds the semaphore and is queued to run after at most p + 1 signals |
| Semaphore.SignalNeedsHolder | kernel/kern/sem.c:17-27 | the count stays within the maximum exactly when it was positive or somebody waits; otherwise a later wait blocks with no holder |
| Semaphore.KilledWaiterRevives | kernel/kern/sem.c:17-27 | from every sound state: an exit that kills the first waiter followed by a signal of a holder makes the dead thread ready, queued and a holder |
| Semaphore.Sem.Wait | kernel/kern/sem.c:30-40 | counts up below the maximum, else the caller waits behind the others and is blocked |
| Semaphore.Sem.Signal | kernel/kern/sem.c:17-27 | the first waiter is made ready, or the count goes down |
| TaskWait.StepKeeps | kernel/kern/exit.c:14-104 | every wait, exit, stop, continue and dispatch, except exactly the exits of processes with children, keeps: a waiting parent is blocked and not queued, nothing it waits for has an untold change, no process is queued twice |
| TaskWait.ExitKeepsExactly | kernel/kern/task.c:179-216 | an exit keeps the invariant exactly when the process has no children |
| TaskWait.ChangedKeeps | kernel/kern/task.c:256-267 | a state change that could be missed always ends the wait of the parent |
| TaskWait.WokenOnce | kernel/kern/task.c:256-267 | the parent is queued exactly when it waits for this child or any, once |
| TaskWait.ScanKeeps | kernel/kern/exit.c:37-80 | the scan finds a child exactly when one has a pending change |
| TaskWait.WaitAnyExactly | kernel/kern/exit.c:37-58 | the first child with something to tell is told and removed if dead; with none the caller sleeps for any child, or, with WNOHANG, gets 0 and nothing changes |
| TaskWait.WaitAnyBlocks | kernel/kern/exit.c:37-58 | the caller is blocked exactly without WNOHANG and without a pending change |
| TaskWait.WaitChildExactly | kernel/kern/exit.c:82-99 | the same for one child |
| TaskWait.ResumeAnyExactly | kernel/kern/exit.c:57-80 | behind the block the first child with something to tell is told, 0 without one |
| TaskWait.ChangesState | kernel/kern/task.c:179-267 | which state and status stop, continuation and exit give to a task, and to no other |
| TaskWait.StepReports | kernel/kern/exit.c:14-104 | a call tells a pending change of one child, or leaves all marks alone |
| TaskWait.ReportsAlternate | kernel/kern/exit.c:14-35 | over every run the stops and continuations told of a child alternate |
| TaskWait.NeighboursDiffer | kernel/kern/exit.c:14-35 | of two successive reports of a child, the second is a continuation exactly when the first is a stop |
| TaskWait.DeathNotMissed | kernel/kern/exit.c:37-80 | with a dead child no `wait_any_child` returns empty-handed or stays blocked |
| TaskWait.StatusLasts | kernel/kern/task.c:179-267 | over every run a dead task keeps the status of its exit until its death is told |
| TaskWait.ExitThenWait | kernel/kern/exit.c:37-58 | a parent that waits after the exit of its child gets the child and the status given to the exit, and the child is gone |
| TaskWait.ChildWaitTellsAgain | kernel/kern/exit.c:82-104 | the woken `wait_child` consumes nothing: the next call tells the change again exactly when it is still pending |
| TaskWait.AnyWaitEmpty | kernel/kern/exit.c:57-80 | the woken `wait_any_child` returns 0 exactly when no child has a pending change |
| TaskWait.WokenForNothing | kernel/kern/exit.c:57-80 | a stop followed by a continuation before the parent runs leaves it awake with nothing pending |
| TaskWait.OrphanDeathMissed | kernel/kern/task.c:179-267 | an orphan that dies while init waits for any child leaves init blocked with a dead child in its list |
| TaskWait.TaskTable.HasChildChanged | kernel/kern/exit.c:14-35 | true exactly for a pending change, which is then told if the child lives |
| TaskWait.TaskTable.TaskDelete | kernel/kern/task.c:218-237 | the dead child is gone from the table and from its parent's list |
| TaskWait.TaskTable.ScanChildren | kernel/kern/exit.c:39-53 | the first child with a pending change is told, with its status; a dead one is removed |
| TaskWait.TaskTable.WaitAnyChild | kernel/kern/exit.c:37-58 | up to the block: a child, 0, or asleep waiting for any |
| TaskWait.TaskTable.WaitForChild | kernel/kern/exit.c:82-99 | up to the block: the child, 0, or asleep waiting for it |
| TaskWait.TaskTable.Awake | kernel/kern/exit.c:57-104 | behind the block: the scan again, with the status of the child found, or the child unseen |
| TaskWait.TaskTable.TaskChange | kernel/kern/task.c:256-267 | the new state, and the parent awake if it waited for it |
| TaskWait.TaskTable.TaskExit | kernel/kern/task.c:179-216 | the process is dead, its children are in the list of init, and its parent is awake if it waited for it |
| RingBuffer.PushedAllLast | kernel/kern/ringbuf.c:57-64 | pushing byte by byte, dropping the oldest when full, keeps the last n bytes of all |
| RingBuffer.Ring.Size | kernel/kern/ringbuf.c:67-78 | the number of queued bytes |
| RingBuffer.Ring.Put | kernel/kern/ringbuf.c:25-37 | the byte is last; a full buffer loses its oldest byte |
| RingBuffer.Ring.Take | kernel/kern/ringbuf.c:40-46 | the oldest byte goes; an empty buffer seems to hold all but one byte afterwards |
| RingBuffer.Ring.Write | kernel/kern/ringbuf.c:57-64 | of old contents and data of any length exactly the last bytes that fit remain |
| RingBuffer.Ring.Read | kernel/kern/ringbuf.c:48-55 | the oldest n bytes, in order, leave the buffer if there are that many; else stale bytes follow, round and round, and what the buffer then seems to hold is given |
| RingBuffer.LeftExactly | kernel/kern/ringbuf.c:40-55 | after n bytes are taken the buffer holds n less exactly when it held at least n |
| RingBuffer.Pipe.Read | kernel/kern/fs/pipe.c:19-40 | takes the front of the buffer; waits when it is empty, is interrupted when it is also closed |
| RingBuffer.Pipe.Write | kernel/kern/fs/pipe.c:42-64 | appends as much as fits; waits when full, is interrupted when also closed |
| RingBuffer.ReadExactly | kernel/kern/fs/pipe.c:19-40 | a read returns the smaller of what is asked for and what is queued; it waits exactly on an empty open pipe and is interrupted exactly on an empty closed one |
| RingBuffer.WriteExactly | kernel/kern/fs/pipe.c:42-64 | a write accepts the smaller of what is offered and what is free; it waits exactly on a full open pipe and is interrupted exactly on a full closed one |
| RingBuffer.PipeConserves | kernel/kern/fs/pipe.c:19-64 | over every interleaving, bytes read and bytes still buffered are the bytes accepted, in order |
| VfsPath.SplitSlashed | kernel/kern/fs/vfs.c:251-278 | the components of two paths joined by a slash are those of the first followed by those of the second |
| VfsPath.SplitMerges | kernel/kern/stdlib.c:80-109 | without a slash at the border of two texts the last component of the first and the first of the second become one |
| VfsPath.SplitAtBorder | kernel/kern/stdlib.c:80-109 | the components of two texts put together are those of both exactly when one is empty or a slash stands at the border |
| VfsPath.SplitJoin | kernel/kern/fs/vfs.c:280-290 | splitting a joined list of names gives the list back |
| VfsPath.CanonCanonical | kernel/kern/fs/vfs.c:243-294 | the result is always canonical |
| VfsPath.CanonFixes | kernel/kern/fs/vfs.c:243-294 | a path is left alone exactly when it is canonical; canonicalising is idempotent |
| VfsPath.CanonComposes | kernel/kern/fs/vfs.c:243-294 | going to p and then to a relative q is going to p/q |
| VfsPath.CanonAnchored | kernel/kern/fs/vfs.c:247-254 | an absolute path ignores the working directory, a relative one continues it |
| VfsPath.CanonSteps | kernel/kern/fs/vfs.c:262-278 | one more component: "." stays, ".." goes up and at the root stays, a name goes down |
| VfsPath.CanonUp | kernel/kern/fs/vfs.c:266-270 | going down and up again is staying; above the root is the root; above a canonical path are its names but the last |
| VfsPath.Strspn | kernel/include/micro/stdlib.h:29-44 | skips exactly the leading slashes |
| VfsPath.Strcspn | kernel/include/micro/stdlib.h:46-57 | ends the run without slashes |
| VfsPath.Strtok | kernel/kern/stdlib.c:80-109 | the next component, terminated in place, with the rest still to come and everything before untouched; none exactly when no component is left |
| VfsPath.Tokens | kernel/kern/fs/vfs.c:256-278 | the in-place loop leaves pointers to exactly the names of the fold over the components |
| VfsPath.MkCanon | kernel/kern/fs/vfs.c:243-294 | the whole function computes the canonical path |
| Vfs.GetMntBest | kernel/kern/fs/vfs.c:198-241 | the mount found is the earliest of the longest prefixes, its path and the rest make up the path; none exactly when no mount path is a non-empty prefix |
| Vfs.Mounts.Get | kernel/kern/fs/vfs.c:198-241 | the scan finds that mount |
| Vfs.Mounts.MountFs | kernel/kern/fs/vfs.c:473-496 | the first type with the name mounts the device, and what it delivers is last in the list; without the type, or when its callback fails, the error and no change |
| Vfs.RegisteredFound | kernel/kern/fs/vfs.c:473-528 | a registration makes its name known unless it was taken; every other name leads where it did |
| Vfs.RegisterThenMount | kernel/kern/fs/vfs.c:473-528 | the callback of a new name mounts; a name that was taken goes on with the callback it had |
| Vfs.Mounts.UmountFs | kernel/kern/fs/vfs.c:498-518 | the earliest mount at the path goes; false exactly when there is none |
| Vfs.MountUmount | kernel/kern/fs/vfs.c:473-518 | undoing a mount at an unused path restores the list; at a used path the older mount goes |
| Vfs.MountUmountRestores | kernel/kern/fs/vfs.c:198-518 | after mounting and unmounting at a path every path finds the mount it found before exactly when the mount path is empty or was unused, or the mount that is then the first at the path has the old root |
| Vfs.ResolveByMounts | kernel/kern/fs/vfs.c:297-339 | resolution depends on the mount list only through the mount found for each path |
| Vfs.MountUmountResolves | kernel/kern/fs/vfs.c:297-518 | under the same condition the resolution of every path is restored, links included |
| Vfs.MountHides | kernel/kern/fs/vfs.c:198-241 | a mount takes over exactly the paths for which it is a longer prefix than any mount before |
| Vfs.PrefixOfBytes | kernel/kern/fs/vfs.c:208-223 | the components of a path are those of its mount point followed by those of the rest exactly when the rest is empty or a slash stands at the border |
| Vfs.PrefixExample | kernel/kern/fs/vfs.c:208-223 | a mount at "/mnt" takes "/mntx", whose component is neither of the two parts |
| Vfs.WalkArrives | kernel/kern/fs/vfs.c:314-336 | a walk arrives exactly when it passes every component, each from a readable directory that has it |
| Vfs.WalkFails | kernel/kern/fs/vfs.c:314-336 | it fails with an error exactly when it comes to a component that has it: outside a directory, in one that may not be read, or by its lookup |
| Vfs.WalkFollows | kernel/kern/fs/vfs.c:325-332 | it follows a link exactly when it comes to one and links are followed |
| Vfs.ResolveFails | kernel/kern/fs/vfs.c:297-339 | resolving a path fails with the error of its walk |
| Vfs.ParentFound | kernel/kern/fs/vfs.c:104-138 | which directory and name are found, and exactly when: every directory before it may be read, and of the last no permission is asked |
| Vfs.ParentRefused | kernel/kern/fs/vfs.c:104-138 | permission is denied exactly when the walk to the directory comes to one that may not be read, or a lookup denies it |
| Vfs.ResolveIsLookupInParent | kernel/kern/fs/vfs.c:104-138 | without links and with full permission, resolving a path is looking up its last component in its parent directory, errors included |
| Vfs.RemainderDropped | kernel/kern/fs/vfs.c:325-332 | components behind a followed link do not matter |
| Vfs.ResolvesFully | kernel/kern/fs/vfs.c:297-339 | when every link followed is the last component, resolving is resolving with the components behind links kept |
| Vfs.DroppedExample | kernel/kern/fs/vfs.c:297-339 | with a link to a directory, a path through the link resolves to the directory and not to the entry named behind it |
| Vfs.ResolvesOffLinks | kernel/kern/fs/vfs.c:297-339 | following links, the result is never a link |
| Vfs.SelfLinkLoops | kernel/kern/fs/vfs.c:297-339 | a link to itself is refused |
| Vfs.ChainResolves | kernel/kern/fs/vfs.c:297-339 | of a chain of links seven are followed, an eighth is refused |
| Vfs.GetParentDir | kernel/kern/fs/vfs.c:104-138 | the directory of the last component and its name, or the error of the walk to it |
| Vfs.DoResolve | kernel/kern/fs/vfs.c:297-339 | the loop and its recursion through links compute the resolution and end for every graph of links |
| UserStack.Decodes | kernel/kern/binfmt.c:33-92 | words and strings in place decode to the arguments, environment and vector |
| UserStack.VectorDescribes | kernel/kern/binfmt.c:14-31 | one value under each of the six kinds; the one for secure mode is 1 exactly when real and effective ids differ |
| UserStack.Stack.PushText | kernel/kern/binfmt.c:11-11 | the terminated string lies at the new stack pointer; only the part below the old one changes |
| UserStack.Stack.PushWord | kernel/kern/binfmt.c:12-12 | one word more in front of those pushed |
| UserStack.Stack.PushAux | kernel/kern/binfmt.c:63-68 | the vector lies in order with its end mark |
| UserStack.Stack.PushArray | kernel/kern/binfmt.c:70-81 | the pointers lie in order, followed by a null |
| UserStack.Stack.Setup | kernel/kern/binfmt.c:33-92 | decoding the final stack gives exactly the arguments and the environment, and by kind the page size, the four ids and whether real and effective ones differ; the stack pointer is aligned to 8; nothing outside the pushed part changes |
| List.List.Enqueue | kernel/kern/list.c:17-37 | the element is last, links and count are right |
| List.List.Dequeue | kernel/kern/list.c:39-61 | the first element goes; an empty list is left as it is |
| List.List.PopBack | kernel/kern/list.c:63-85 | the last element goes; an empty list is left as it is |
| List.List.GetNode | kernel/kern/list.c:92-97 | the walk reaches the node at the index |
| List.List.Remove | kernel/kern/list.c:110-128 | exactly the element at the index goes; the count stays |
| List.List.Clear | kernel/kern/list.c:87-90 | with a count not above the number of elements, that many elements go and the count is 0 |
| List.List.ClearFor | kernel/kern/list.c:87-90 | n rounds of the loop take as many elements as there are rounds, elements and counted elements; the count reaches 0 exactly when it is not above the number of elements and n is enough |
| List.RemoveThenClear | kernel/kern/list.c:87-128 | after a removal from a list with the right count no number of rounds clears it |
| Qsort.InversionsSwapped | usr/libs/libc/stdlib/qsort.c:18-22 | each swap removes exactly one inversion |
| Qsort.TiesSwapped | usr/libs/libc/stdlib/qsort.c:18-22 | no swap changes the order of elements that tie |
| Qsort.Qsort | usr/libs/libc/stdlib/qsort.c:14-25 | for every total preorder the loop ends with a sorted, stable permutation |
| Qsort.QsortFor | usr/libs/libc/stdlib/qsort.c:14-25 | n rounds of the loop, for any comparator, are n rounds of its value-level form |
| Qsort.ContradictoryComparatorLoops | usr/libs/libc/stdlib/qsort.c:14-25 | once two neighbours, behind an element above neither, are each above the other no number of rounds ends the loop |
| Qsort.TwoElementsLoopExactly | usr/libs/libc/stdlib/qsort.c:14-25 | on two elements the loop runs forever exactly when each is above the other |
| Qsort.LoopEnds | usr/libs/libc/stdlib/qsort.c:14-25 | for every comparator that puts no two elements each above the other, transitive or not, the loop ends with the same elements and all neighbours in order |
| Qsort.EndsExactly | usr/libs/libc/stdlib/qsort.c:14-25 | the loop ends on every array exactly for these comparators |

## Left out

- Ext2File.SetInodeBlk: says nothing of the block map for doubly indirect blocks, because the original ignores them.
- Ext2File.Write: a file grows only within the twelve direct blocks and with enough free blocks, because beyond that the original advances neither sectors nor doubly indirect pointers.
- Ext2Dir.AppendDirent: a new block needs a free block and a free direct pointer, because the original does not look at failed allocations; the file size of the directory is not updated by the original either.
- Ext2Volume.AllocBlk: groups of 8 times the block size, as the bitmap scan assumes.
- KernelPages.KernelPages.Kalloc: no directory entries for 2 MiB pages, because nothing enters one in this directory.
- VmMap.Map: when frames or kernel pages run out the model stops; the original goes on with frame 0.
- Sched.Scheduler.SwitchNext: asks for a thread to find; without one the loop spins, which `Spins` states.
- Vfs.DoResolve: lookups, permissions and link targets are parameters; link texts are what `readlink` delivers into 60 bytes.
- VfsPath.MkCanon: input shorter than its buffer of 256 bytes; the output buffer is a value.
- TaskWait.StepKeeps: one thread per process, steps are atomic; the exit of a process that has reaped a child is included although `list_clear` does not end for it in the original.
- TaskWait.TaskTable.TaskDelete: a collected task is gone from the table; the original frees it but leaves it in the scheduler's list of tasks, where a later `waitpid` for its number would find it.
- Qsort.Qsort: elements are values; the byte-wise swap through a temporary buffer is one assignment.
- Triply indirect blocks, `ext2_alloc_inode`, `ext2_mkdir`'s dot entries, `ext2_getdents`, attributes and times: shapes like those modelled, or unfinished in the original.
- Signals, ptrace and stopping in the scheduler model: nested dispatching would break the queue invariant, so stopping is modelled in `TaskWait` only.
- Page faults, anonymous and file mappings, module and device mappings: they use the allocators modelled here.
- The area list of a cloned address space: the original starts it empty.
- Locks, interrupts, TLB flushes, device drivers and assembly: no state of interest is left when each step is atomic.
- Device semantics: reads behind the device give zeros and writes there are dropped; the original's driver is not modelled.
- `list_insert_after`, `list_insert_before`, `list_set`: easy beside `Remove`.
- The FAT driver, the C library's `malloc`, printing, time conversion, terminals, shell and coreutils.
