# A verified model of the Pintos kernel

This project models the core of a Pintos kernel (the build with user programs,
demand paging and the linked inode layout: `USERPROG`, `FILESYS`, `PRJ3` and
`PRJ4` defined, `INDEXED_STRUCTURE` not) and proves what its parts are for.

- **Virtual memory** (`Paging`, `PageFaults`, `MemoryRuns`, `MappedFiles`,
  `PageFaultHandler`). Page faults load lazily, grow the stack, evict to swap or
  to a mapped file, and swap back in. Over every run of accesses and faults the
  frames, the swap disk and the files together behave like flat memory, and a
  mapped file holds after munmap exactly the last bytes written through the
  mapping.
- **Files** (`BufferCache`, `Inodes`, `Allocation`, `WriteWalks`, `FileSystem`,
  `StrayWrites`). The 64-slot
  write-back cache behaves as a flat array of sectors. A file is a chain of index
  nodes; reading, writing, growing, creating and releasing run on the cache and
  are proved against the bytes of the file, byte by byte of the stored node
  format, whatever the cache has evicted. Where the code leaves the file, the
  proofs say exactly when another file is at risk.
- **Threads** (`Scheduling`, `SchedulingSteps`, `Donation`, `SchedulingRuns`,
  `SchedulingOrder`, `DonationFault`, `Scheduler`). Scheduler, semaphores, locks,
  priority donation and the alarm clock are a transition system whose steps run
  with interrupts off; a donation walk is as many steps as it raises threads,
  because each may end in a reschedule. The invariant, first-in first-out order
  and the alarm clock are proved over every run.
- **Memory allocation** (`Malloc`, `MallocSteps`, `MallocRuns`, `Allocator`,
  `Bitmaps`). Live blocks never overlap, over any sequence of calls, and when all
  are freed every page is back.
- **Library code** (`ListOrder`, `KernelList`, `HashTable`, `Heapsort`,
  `Arithmetic`): the in-place stable merge sort on linked nodes, the resizing
  hash table, heapsort, and 64-bit division from a 64-by-32-bit divide.

Code that updates state in place is a class, or a method on an array, proved
equal to a function on values; the functions carry the theorems about runs, and the
methods of `Scheduler` and `Allocator` prove that they are steps of those runs.
`dafny verify dfyconfig.toml` checks everything.

## What the proofs found

Where a property does not hold of the code, the model keeps the code and the
contract states when it holds.

- A created or grown file inherits whatever its last index node's sector held
  where the link is kept. `Create` and `WriteAt` prove the file well formed if
  and only if that word was zero, and `StaleLink` runs create, remove, create to
  a file that is not.
- Reading and writing follow the last node's link when they use its last entry.
  `ReadAt` and `WriteAt` prove that this leaves the disk if and only if the
  request ends in that entry and the link leads there (`RunsOff`).
- A growing write on a file whose last node is full takes one node more than it
  needs when no new data sector is due. `WriteAt` proves that one sector is lost
  exactly then (`Leaks`), and `LostSector` runs into it from a new file.
- A write that starts inside a file and runs past its end is cut off although
  all of it is reported as written. `WriteVisibleIff` proves the bytes can be
  read back if and only if the write starts at or past the end or stays inside.
- Such a write that does not fit the file's sectors goes on through whatever the
  node's next entries, and the nodes that links lead to, hold. `StraySparesIff`
  proves that no buffer of a given size touches another file if and only if no
  entry past the last one names a sector of that file or a node still to be
  followed. `StrayRun` is a run, on every volume with three free sectors, of
  create, remove, create, create and one write to the second file, after which
  the third file is gone.
- A write that grows a file whose full last node has a stale link takes the
  sector there for the last node. `StaleGrowth` proves what that leaves of the
  file, whose last node still leads to that sector and not to the new node;
  `StaleGrowthTangles` proves that a longer file at that head goes on in the
  stale sector.
- What a cut-off write left behind the end shows up when the file grows later.
  `GapIsZeroIff` proves the gap reads as zeros if and only if the last sector
  held zeros there; `GapShowsCutOffByte` is an input for which it does not.
- A write that is denied still grows the file first (`WriteAt`).
- `lock_acquire` follows the holder pointer of every lock on its donation walk.
  `WalkCompletesIff` proves that it meets no NULL pointer if and only if every
  lock that can be come to through holders of lower priority is held, and
  `NullHolder` is a run from the booted kernel to where it meets one.
- `umod64` and `smod64` return 32-bit types. They are the remainder exactly when
  it fits (`UmodExact`, `SmodExact`).
- `sdiv64` is truncating division for every pair but INT64_MIN and -1
  (`SdivExact`).
- The comment on `bitmap_scan_and_flip` promises 0 for a group of no bits; the
  code returns the start index, and so does `Scan`.
- The comment at the head of `malloc.c` says blocks up to 2 kB come from arenas;
  the loop stops below half a page, so 1 kB is the largest, and so it is here.

## Model

| member | source | states |
|---|---|---|
| `Arithmetic.Divl` | src/lib/arithmetic.c:21-37 | traps exactly on a zero divisor or a quotient of more than 32 bits; otherwise the floor quotient |
| `Arithmetic.Nlz` | src/lib/arithmetic.c:39-73 | the one shift that brings the top bit of a nonzero word to bit 31 |
| `Arithmetic.Udiv64` | src/lib/arithmetic.c:77-127 | floor(n/d) for every 64-bit n and nonzero d with no trap in any inner divide; a trap only for d = 0 |
| `Arithmetic.EstimateIsClose` | src/lib/arithmetic.c:121-123 | dividing by the truncated divisor overshoots the true quotient by at most one |
| `Arithmetic.LargeDivision` | src/lib/arithmetic.c:113-126 | the normalised estimate never traps, and one comparison of the remainder corrects it, without underflow |
| `Arithmetic.SchoolDivision` | src/lib/arithmetic.c:80-112 | the two-step division by a 32-bit divisor never traps and joins to the full quotient |
| `Arithmetic.Correction` | src/lib/arithmetic.c:124-124 | with the estimate off by at most one, (q-1)*d stays at or below n and one test picks the quotient |
| `Arithmetic.Umod64` | src/lib/arithmetic.c:131-135 | the remainder modulo 2^32 |
| `Arithmetic.UmodExact` | src/lib/arithmetic.c:131-135 | the result is the true remainder if and only if that is below 2^32 |
| `Arithmetic.UmodDropsHighHalf` | src/lib/arithmetic.c:131-135 | a pair of arguments whose remainder loses its high half |
| `Arithmetic.Sdiv64` | src/lib/arithmetic.c:139-146 | truncation toward zero, wrapped to 64 bits |
| `Arithmetic.SdivExact` | src/lib/arithmetic.c:139-146 | exact truncating division if and only if the pair is not INT64_MIN / -1 |
| `Arithmetic.Smod64` | src/lib/arithmetic.c:150-154 | the remainder with the sign of n, reduced to a signed 32-bit value |
| `Arithmetic.SmodExact` | src/lib/arithmetic.c:150-154 | the result is the true remainder if and only if it fits 32 signed bits |
| `ListOrder.InsertKeepsSorted` | src/lib/kernel/list.c:453-467 | ordered insertion keeps a sorted list sorted and puts the new element after its equals |
| `ListOrder.StableSortCorrect` | src/lib/kernel/list.c:410-448 | the reference sort is sorted and rearranges without reordering equals |
| `ListOrder.StableSortUnique` | src/lib/kernel/list.c:410-448 | two sorted stable rearrangements of the same list are the same list |
| `ListOrder.StableSortIsTheOne` | src/lib/kernel/list.c:410-448 | any sorted stable rearrangement is the reference sort |
| `ListOrder.SortIdempotent` | src/lib/kernel/list.c:410-448 | sorting a sorted list changes nothing |
| `ListOrder.MergeStepIsStable` | src/lib/kernel/list.c:385-408 | moving the right run's head in front keeps both runs, the ends and the order of equals |
| `ListOrder.PassContinues` | src/lib/kernel/list.c:425-446 | merging two adjacent runs adds one output run for two input runs |
| `ListOrder.PassEndsOdd` | src/lib/kernel/list.c:425-446 | a pass leaves at most half the runs, rounded up, also with an unpaired last run |
| `KernelList.List.Insert` | src/lib/kernel/list.c:168-177 | the node sequence gains the element at that place, linked both ways |
| `KernelList.List.Remove` | src/lib/kernel/list.c:256-263 | exactly that node is gone, and its successor is returned |
| `KernelList.List.Splice` | src/lib/kernel/list.c:183-204 | within one list, the range moves before the given node, in order, everything else as it was |
| `KernelList.List.SpliceFrom` | src/lib/kernel/list.c:183-204 | between two lists, the range leaves the one and stands before the given node of the other, both still linked both ways |
| `KernelList.List.FindEndOfRun` | src/lib/kernel/list.c:365-380 | the first descent, or the end of the range |
| `KernelList.List.InplaceMerge` | src/lib/kernel/list.c:387-408 | two adjacent sorted ranges become one sorted range, equals kept in order, nothing outside touched |
| `KernelList.List.SortPass` | src/lib/kernel/list.c:425-446 | a stable rearrangement with no more runs than counted, and about half as many as before |
| `KernelList.List.Sort` | src/lib/kernel/list.c:412-448 | terminates for every strict weak order with the same nodes in the stable sorted order |
| `KernelList.List.Reverse` | src/lib/kernel/list.c:333-346 | the same nodes in reverse, linked both ways |
| `KernelList.List.InsertOrdered` | src/lib/kernel/list.c:453-467 | the node lands after every element that is not greater |
| `Bitmaps.SetRange` | src/lib/kernel/bitmap.c:218-230 | exactly the bits of the range have the value |
| `Bitmaps.Scan` | src/lib/kernel/bitmap.c:296-313 | the first group of that many equal bits, or none if and only if there is none |
| `Bitmaps.ScanUnique` | src/lib/kernel/bitmap.c:296-313 | a group with none before it is the one that scanning finds |
| `Bitmaps.FlipThenRelease` | src/lib/kernel/bitmap.c:320-327 | releasing what scan-and-flip took restores every bit |
| `Bitmaps.Bitmap.constructor` | src/lib/kernel/bitmap.c:78-95 | a new bitmap has every bit false |
| `Bitmaps.Bitmap.SetMultiple` | src/lib/kernel/bitmap.c:218-230 | the bit-by-bit loop sets exactly the range |
| `Bitmaps.Bitmap.CountRange` | src/lib/kernel/bitmap.c:233-248 | how many bits of the range have the value |
| `Bitmaps.Bitmap.Contains` | src/lib/kernel/bitmap.c:251-265 | true if and only if some bit of the range has the value |
| `Bitmaps.Bitmap.ScanFor` | src/lib/kernel/bitmap.c:296-313 | the loop finds the first group, or none |
| `Bitmaps.Bitmap.ScanAndFlip` | src/lib/kernel/bitmap.c:320-327 | the group found is flipped and no other bit changes |
| `Paging.SlotRoundTrip` | src/userprog/exception.c:200-205 | a page written to a slot's eight sectors reads back, and other slots are untouched |
| `Paging.FilePageByte` | src/userprog/exception.c:176-302 | a page loaded from a file holds the file bytes it stands for, and zeros after them |
| `PagingSteps.EspKeeps` | src/vm/page.c:88-98 | moving the stack bit to the page of the new stack pointer changes no page's bytes |
| `PagingSteps.AllocationKeeps` | src/userprog/exception.c:176-176 | handing out a free frame touches no page |
| `PagingSteps.SwapOutKeeps` | src/userprog/exception.c:189-217 | an evicted page keeps its bytes in its slot or its file, and every other page stays where and as it was |
| `PagingSteps.GrowthKeeps` | src/userprog/exception.c:241-270 | stack growth adds one zero page and disturbs no other |
| `PagingSteps.LoadKeeps` | src/userprog/exception.c:300-323 | lazy loading brings in the bytes the page already stood for |
| `PagingSteps.SwapInKeeps` | src/userprog/exception.c:324-352 | swapping in brings the bytes back and frees the slot, others keep theirs |
| `PageFaults.VictimExists` | src/vm/swap.c:51-84 | the scan finds a victim if and only if some frame's stack bit is clear |
| `PageFaults.VictimIsRight` | src/vm/swap.c:64-75 | the victim has both bits clear when taken, is the first such frame, had been accessed only if no frame was clear, and all other frames stay |
| `PageFaults.RotationKeeps` | src/vm/swap.c:64-75 | taking the victim out of the rotated table leaves every other frame in it once |
| `PageFaults.EvictionKeeps` | src/userprog/exception.c:181-224 | an eviction keeps the invariant and all contents and leaves a free frame |
| `PageFaults.EvictionMoves` | src/userprog/exception.c:181-224 | the page that goes is the one the second-chance rule names, to the first free slot or to its file; every other page stays where it is, and the rest of the frame table keeps its order behind it |
| `PageFaults.EvictionFrees` | src/userprog/exception.c:181-224 | exactly the frame of that page is free then |
| `PageFaults.WithFrameKeeps` | src/userprog/exception.c:176-224 | a zeroed frame nobody maps is obtained without changing what any page holds |
| `PageFaults.FaultIsFaithful` | src/userprog/exception.c:130-353 | a whole fault keeps the invariant and every page's bytes, makes the page resident or kills, and adds at most the one zero stack page; it kills exactly on a rights violation or an address neither mapped nor the stack's |
| `PageFaults.ResolveInstalls` | src/userprog/exception.c:241-352 | a handled fault maps the page in the frame it got, writable as its entry says or as a new stack page, last in the frame table; the slot it came from, and no other, is free again |
| `PageFaults.KilledIff` | src/userprog/exception.c:226-352 | a fault kills exactly on a rights violation or an unmapped address outside the 128 MB below PHYS_BASE, or in it but below the stack pointer by other than 4 or 32 bytes |
| `MemoryRuns.StepEffect` | src/userprog/exception.c:130-353 | one access or fault changes a byte only if it is a write to it |
| `MemoryRuns.MemoryIsFlat` | src/userprog/exception.c:176-352 | after any run a byte is the last one written there, or its initial one |
| `MemoryRuns.ReadsSeeLastWrite` | src/userprog/exception.c:176-352 | every read in a run returns the last byte written before it |
| `MemoryRuns.ReadsSeeExecutable` | src/userprog/exception.c:176-352 | from processes with nothing loaded, every read in every run returns the byte last written there, or the byte of the executable, or zero past its bytes and on a new stack page |
| `MemoryRuns.PlacesAreExclusive` | src/vm/page.c:43-80 | in every reachable state a page is unloaded, resident or swapped, and frames and marked slots are not shared |
| `MemoryRuns.NothingLoadedInv` | src/userprog/exception.c:297-323 | processes whose pages are all still to be loaded satisfy the invariant: runs have a place to start |
| `MemoryRuns.RunInv` | src/userprog/exception.c:130-353 | every run keeps the paging invariant |
| `MemoryRuns.StackBitIsUnique` | src/vm/page.c:88-98 | in every run at most the page of a process's saved stack pointer has the stack bit that keeps a frame from eviction |
| `MappedFiles.MmapShowsFile` | src/userprog/syscall.c:325-381 | a new mapping shows the file byte for byte, then zeros to the end of its last page, and disturbs no page |
| `MappedFiles.MmapIff` | src/userprog/syscall.c:310-381 | a mapping is made if and only if the file is not empty, the address is a nonzero page address and no page of the range has an entry; it adds exactly the pages of the range |
| `MappedFiles.UnmapOneEffect` | src/threads/thread.c:857-879 | unmapping a page writes it back if dirty, removes its frame and entry, and changes no other page or file byte |
| `MappedFiles.DropEffect` | src/vm/swap.c:106-126 | dropping a resident page frees exactly its frame, and takes it alone out of the frame table |
| `MappedFiles.MunmapWritesBack` | src/threads/thread.c:837-890 | after munmap the file holds what the mapping showed, no frame, entry or present bit of the range is left, and every other page is there with its bytes |
| `MappedFiles.MunmapStopsIff` | src/threads/thread.c:857-879 | munmap stops for want of a frame if and only if none can be had before it starts and the first page of the range that is resident or has a dirty entry is not resident |
| `MappedFiles.RunKeepsMapping` | src/userprog/exception.c:207-215 | a mapping survives any run of accesses, faults and evictions |
| `MappedFiles.MappedFileRoundTrip` | src/threads/thread.c:837-890 | mmap, any run, munmap: the file has its old length and holds the last bytes written through the mapping |
| `MappedFiles.MappingSurvives` | src/userprog/syscall.c:325-381 | a fresh mapping is still whole after any run, so it can be unmapped |
| `PageFaultHandler.VirtualMemory.SetNewDirtyPage` | src/vm/page.c:88-98 | the new stack pointer is saved and its page gets the stack bit, no other page of the process has one if only the old stack page had (as in every run, by StackBitIsUnique), and no page changes its bytes |
| `PageFaultHandler.VirtualMemory.FindVictim` | src/vm/swap.c:51-84 | the rotating loop stops at the specified victim with the accessed bits cleared on the way |
| `PageFaultHandler.VirtualMemory.WriteSectors` | src/userprog/exception.c:200-205 | the eight-sector loop stores the page in its slot |
| `PageFaultHandler.VirtualMemory.ReadSectors` | src/userprog/exception.c:328-333 | the eight-sector loop reads the slot back |
| `PageFaultHandler.VirtualMemory.Evict` | src/userprog/exception.c:181-218 | the eviction code makes the eviction step |
| `PageFaultHandler.VirtualMemory.Resolve` | src/userprog/exception.c:226-353 | whichever branch is taken no page changes its bytes, at most a zero stack page is new, and the page asked for is resident unless the process is killed |
| `PageFaultHandler.VirtualMemory.PageFault` | src/userprog/exception.c:130-353 | the handler keeps the invariant and every page's bytes, and kills exactly on a rights violation or an address neither mapped nor the stack's |
| `BufferCache.FindUnique` | src/filesys/cache.c:98-105 | the slot with none before it is the one the lookup finds |
| `BufferCache.WriteThrough` | src/filesys/cache.c:38-41 | writing a slot to disk changes no logical sector |
| `BufferCache.Drop` | src/filesys/cache.c:79-83 | giving up a slot whose data is on disk changes no logical sector |
| `BufferCache.Load` | src/filesys/cache.c:107-116 | filling a slot from disk changes no logical sector, whatever its old dirty flag |
| `BufferCache.Store` | src/filesys/cache.c:148-149 | writing into a slot changes exactly that logical sector |
| `BufferCache.StopUnique` | src/filesys/cache.c:64-86 | the clock's stopping place is determined by the flags and the hand |
| `BufferCache.SweepIsInvisible` | src/filesys/cache.c:64-73 | clearing accessed flags changes no logical sector |
| `BufferCache.FlushedAll` | src/filesys/cache.c:152-163 | when every slot is flushed the disk is the logical array |
| `BufferCache.Cache.Sweep` | src/filesys/cache.c:64-86 | clears at most 64 flags and stops at the first slot in clock order that was not accessed |
| `BufferCache.Cache.FindVictim` | src/filesys/cache.c:50-89 | an unused slot if there is one, else the clock's; the logical array is unchanged |
| `BufferCache.Cache.Release` | src/filesys/cache.c:30-47 | the sector leaves the cache and the logical array is unchanged |
| `BufferCache.Cache.Read` | src/filesys/cache.c:91-119 | exactly the requested part of the logical sector; a hit changes nothing, a miss only the slot made room in and the flags the clock passes |
| `BufferCache.Cache.Write` | src/filesys/cache.c:121-150 | exactly the requested part of one logical sector changes, in its slot or in the one made room in |
| `BufferCache.Cache.WriteBack` | src/filesys/cache.c:152-163 | afterwards the disk equals the logical array |
| `BufferCache.Cache.Run` | src/filesys/cache.c:30-163 | any sequence of operations reads and writes like a flat sector array |
| `Inodes.NodeRoundTrip` | src/filesys/inode.c:20-42 | a node written to its sector as little-endian words reads back as itself |
| `Inodes.LittleEndian` | src/filesys/inode.c:20-47 | the words of a node are stored with their lowest byte first |
| `Inodes.OtherFileUnchanged` | src/filesys/inode.c:299-455 | a file none of whose sectors changed is stored, holds the same, and is well formed if and only if it was |
| `Allocation.FreeAfterOne` | src/filesys/free-map.c:26-40 | taking a sector lowers the number of free ones by one |
| `Allocation.FreeAfter` | src/filesys/free-map.c:26-40 | taking a list of free sectors lowers it by their number |
| `Allocation.ChainIsLinked` | src/filesys/inode.c:820-876 | the chain that the recursion builds is the indexed layout that reading assumes, and conversely |
| `Allocation.ChainLength` | src/filesys/inode.c:848-867 | a chain has exactly the index nodes its number of sectors needs |
| `Allocation.GrownStep` | src/filesys/inode.c:851-867 | a filled node and the recursive call for the next one make one allocation |
| `Allocation.CreatedFile` | src/filesys/inode.c:109-127 | the sectors its length needs, all zero bytes, owned, and well formed if and only if no stale link was inherited |
| `Allocation.ExtendedFile` | src/filesys/inode.c:500-550 | an extended file keeps its contents and gains zero bytes |
| `Allocation.GrownFileForm` | src/filesys/inode.c:500-550 | the grown file is well formed if and only if its last node held a zero link and its old sectors held nothing past the new end |
| `Allocation.LeakedFileForm` | src/filesys/inode.c:519-534 | a node added without entries leaves the sectors as they were and the chain not well formed |
| `FileSystem.PatchSector` | src/filesys/inode.c:595-595 | changing part of a data sector changes exactly that part of the file |
| `FileSystem.Volume.WriteBack` | src/filesys/cache.c:152-163 | afterwards the disk itself holds every file as readers see it |
| `FileSystem.Volume.Hop` | src/filesys/inode.c:345-352 | arrives where that many links lead, on any disk, or finds the first that leaves it; nothing changes |
| `FileSystem.HopsInFile` | src/filesys/inode.c:345-352 | inside a file so many links lead to the node with that number |
| `FileSystem.Volume.ReadLoop` | src/filesys/inode.c:359-410 | the chunk-by-chunk loop returns the slice it was asked for, and goes off the disk exactly when it ends in the last entry of a last node that links there |
| `FileSystem.Volume.ReadAt` | src/filesys/inode.c:302-455 | exactly the slice from the offset to the end of the request or of the file, for every stored file, stale last link or not; when it then goes off the disk |
| `FileSystem.Volume.WriteLoop` | src/filesys/inode.c:568-618 | over any entries: exactly the sectors they name change, each holds the part of the buffer of its last visit, and as many bytes are counted as those sectors take |
| `WriteWalks.WalkEffect` | src/filesys/inode.c:568-618 | the same of the loop as a function, for every disk, node, entry, offset and buffer |
| `WriteWalks.SparesIff` | src/filesys/inode.c:568-618 | a sector stays as it is whatever is written, if and only if no entry on the way names it, or a node that is yet to be followed and could be made to name it |
| `FileSystem.InFile` | src/filesys/inode.c:568-618 | a write that fits the file's sectors overlays the contents at the offset and changes no sector outside its data; when it goes off the disk |
| `FileSystem.Volume.AllocateSector` | src/filesys/free-map.c:26-40 | the lowest free sector, marked, or none and nothing changed if and only if none is free |
| `FileSystem.Volume.AllocateInodeDisk` | src/filesys/inode.c:820-876 | gets all its sectors if and only if that many are free: new nodes and zeroed data, the lowest free ones, distinct, chained from the given node, every node with the length, the info word and the magic number; later entries and the link of the last node stay, and nothing else changes |
| `FileSystem.Volume.Create` | src/filesys/inode.c:109-127 | a file of zero bytes that took exactly the sectors its length needs, if and only if they are free, every node of the kind asked for; well formed if and only if its last link word was zero |
| `FileSystem.Volume.ReleaseInodeDisk` | src/filesys/inode.c:950-983 | exactly the later nodes and the data are freed |
| `FileSystem.Volume.ReleaseFile` | src/filesys/inode.c:274-285 | all of the file's sectors are free again and no other bit changes, for every stored file |
| `FileSystem.Volume.CreateThenRelease` | src/filesys/inode.c:109-285 | creating and removing a file of any length restores the free map bit for bit, but for its head |
| `FileSystem.Volume.StaleLink` | src/filesys/inode.c:109-285 | create a file of several nodes, remove it, create an empty one: it inherits a link and is not well formed, on every volume |
| `FileSystem.Volume.FindEnd` | src/filesys/inode.c:506-517 | the last node, and the entry where the next sector goes; for a full last node with a stale link the sector there, or off the disk |
| `FileSystem.Volume.Successor` | src/filesys/inode.c:506-528 | the node where growth goes on, new when the last is full, and the sector that gets the link to it; why there is none |
| `FileSystem.Volume.GrowNodes` | src/filesys/inode.c:506-544 | the file is extended by the sectors asked for, or one node is lost, exactly when the last was full and none was asked for; it succeeds if and only if enough sectors are free; with a stale link, what is allocated and where it is linked |
| `FileSystem.Volume.Extend` | src/filesys/inode.c:502-550 | what the sectors held, then zeros, with as many sectors as the new length needs; one sector is lost if and only if the growth leaks; with a stale link, the growth and the new length in the head |
| `FileSystem.Volume.WriteAt` | src/filesys/inode.c:462-671 | the sectors and the bytes of the file after any write: in place, cut off at the end, or grown; what is taken, the one sector lost, what is left alone; all its nodes are still of its kind; exactly when the file is well formed, cut off or not, when space runs out and when the disk is left; where a write goes that does not fit or grows through a stale link |
| `FileSystem.Volume.LostSector` | src/filesys/inode.c:502-550 | a new file that just fills its first node grows by a byte: one sector is lost and the file is not well formed |
| `FileSystem.WriteVisibleIff` | src/filesys/inode.c:502-618 | what was written can be read back if and only if the write does not straddle the end |
| `FileSystem.GapIsZeroIff` | src/filesys/inode.c:502-550 | the gap before a write past the end reads as zeros if and only if the last sector held zeros there |
| `FileSystem.GapShowsCutOffByte` | src/filesys/inode.c:502-618 | a byte cut off by one write is read after the next |
| `FileSystem.OtherFileSurvives` | src/filesys/inode.c:462-671 | a write leaves every other stored file with the same contents, and well formed if and only if it was |
| `StrayWrites.StraySparesIff` | src/filesys/inode.c:551-618 | no write of that size from inside the file touches another file, if and only if no entry past the last one names a sector of it or a node to be followed, and no such node is one of the writer's own sectors |
| `StrayWrites.KeptFile` | src/filesys/inode.c:568-618 | a file none of whose sectors is touched is there as before, with its contents and as well formed |
| `StrayWrites.StrayOverwrites` | src/filesys/inode.c:568-618 | a file whose data a stray write of any length strikes holds, in that sector, that part of the buffer |
| `StrayWrites.TwoFiles` | src/filesys/inode.c:109-285 | create, remove, create, create: two files apart from each other, one with an entry past its end that names the head of the other |
| `StrayWrites.StrayRun` | src/filesys/inode.c:109-618 | a write to the one, reported in full, and the other file is stored no more, on every volume with three free sectors |
| `StrayWrites.StaleGrowth` | src/filesys/inode.c:506-550 | after growth through a stale link the file holds what it held, unless the stale node names one of its sectors as its own; the last node leads where it led, and the sectors allocated are taken all the same |
| `StrayWrites.StaleGrowthTangles` | src/filesys/inode.c:506-550 | every longer file at that head has the stale sector for its next node |
| `Scheduling.OneList` | src/threads/thread.h:127-132 | no thread's list element is on two lists, and the running thread is on none |
| `SchedulingSteps.ScheduledKeeps` | src/threads/thread.c:681-695 | switching to the next thread restores the invariant |
| `SchedulingSteps.YieldedKeeps` | src/threads/thread.c:341-355 | yielding keeps the invariant |
| `SchedulingSteps.UppedKeeps` | src/threads/synch.c:109-129 | sema_up keeps every part of the invariant, no wakeup lost |
| `SchedulingSteps.DownRoundKeeps` | src/threads/synch.c:61-77 | a turn of sema_down keeps the invariant, whether it blocks or takes |
| `SchedulingSteps.ReleasedKeeps` | src/threads/synch.c:268-282 | lock_release by the holder keeps value plus holder at one |
| `SchedulingSteps.PrioritySetKeeps` | src/threads/thread.c:417-424 | a priority change re-sorts the ready list and keeps the invariant |
| `SchedulingSteps.SleptKeeps` | src/devices/timer.c:100-115 | going to sleep keeps the waiting list sorted and the invariant |
| `SchedulingSteps.TickedKeeps` | src/devices/timer.c:146-167 | a timer interrupt keeps the invariant |
| `SchedulingSteps.CreatedKeeps` | src/threads/thread.c:204-245 | a new thread joins the ready list and the invariant holds |
| `Donation.Walk` | src/threads/synch.c:226-240 | terminates on every wait graph, circles included, and changes only priorities and the ready order |
| `Donation.WalkCompletesIff` | src/threads/synch.c:226-240 | the walk meets no NULL holder if and only if, before it starts, every lock on a path of lower-priority holders is held |
| `Donation.DonationRepairs` | src/threads/synch.c:226-240 | if only waiters of one lock were ahead of its holder, afterwards no waiter is ahead of any holder |
| `Donation.DonationRaises` | src/threads/synch.c:226-240 | exactly the threads of lower priority that hold a lock on the way are raised, and to the donated priority, whenever the walk completes |
| `Donation.AcquireDonates` | src/threads/synch.c:200-223 | if every other waiter had donated, every waiter has once lock_acquire has donated |
| `Donation.AcquiredKeeps` | src/threads/synch.c:200-223 | lock_acquire keeps the invariant, whether it blocks or gets the lock, whenever its walk completes |
| `SchedulingRuns.BootedInv` | src/threads/thread.c:105-157 | with the initial thread running, idle blocked and all locks free, the invariant holds: runs have a place to start |
| `SchedulingRuns.RunKeeps` | src/threads/synch.c:61-282 | every state of every run of all steps satisfies the invariant, with other threads running in the middle of donations |
| `SchedulingRuns.NoLostWakeup` | src/threads/synch.c:61-129 | in every run: while threads wait, each unit of the value has a woken thread on its way (one that has only asked for a lock does not count); a lock is free or held, never both |
| `SchedulingRuns.NextPends` | src/threads/synch.c:61-129 | only sema_up and lock_release put a thread on its way, and only one that waited |
| `SchedulingRuns.PendingWasWoken` | src/threads/synch.c:104-129 | in every run a thread on its way was taken from the waiters of that semaphore, and has been on its way ever since |
| `SchedulingRuns.WalkIsRun` | src/threads/synch.c:226-240 | an uninterrupted donation walk is a run of its raises |
| `SchedulingRuns.AcquireIsRun` | src/threads/synch.c:200-223 | an uninterrupted lock_acquire is a run of asking, raising and looking at the semaphore |
| `DonationFault.NullHolder` | src/threads/synch.c:226-240 | a run from the booted kernel to a state where lock_acquire follows a NULL holder, with no thread that could run in between |
| `SchedulingOrder.QueueSort` | src/threads/thread.c:424-424 | re-sorting keeps the order of threads of equal priority |
| `SchedulingOrder.NextQueues` | src/threads/thread.c:272-431 | every step keeps the order of ready threads that end up with equal priority and puts newcomers after them |
| `SchedulingOrder.FirstInFirstOut` | src/threads/thread.c:272-431 | over every run, of two threads that stay ready at one priority the one in front stays in front |
| `SchedulingOrder.SchedulePick` | src/threads/thread.c:619-626 | whoever gave up the CPU and how: the idle thread runs exactly when no thread is ready, otherwise the longest waiter of the highest priority |
| `SchedulingOrder.NextPicks` | src/threads/thread.c:260-261 | in every step that changes the running thread (block, sleep, exit, yield, idle) the new one is that thread |
| `SchedulingOrder.EveryPick` | src/threads/thread.c:682-694 | so over every run |
| `SchedulingOrder.CreatedDone` | src/threads/thread.c:204-245 | a new thread is ready with its priority, behind its equals, and nothing else changes |
| `SchedulingOrder.YieldPick` | src/threads/thread.c:341-355 | a yield goes on with a thread of the highest priority, and with the caller only if every ready thread has a lower one |
| `SchedulingOrder.SemaUpPick` | src/threads/synch.c:117-125 | sema_up wakes the longest waiter of the highest current priority, and only that one |
| `SchedulingOrder.WaitersStay` | src/threads/synch.c:117-125 | the waiters that stay keep the order of equals |
| `SchedulingOrder.NextWaiters` | src/threads/synch.c:61-126 | every step keeps the order of waiters that end up with equal priority, of every semaphore, and puts newcomers after them |
| `SchedulingOrder.WaitersFirstInFirstOut` | src/threads/synch.c:61-126 | over every run, of two threads that go on waiting at one priority the one in front stays in front |
| `SchedulingOrder.UpEffect` | src/threads/synch.c:109-126 | one unit more, the longest waiter of the highest priority ready, the others in order, and nothing else |
| `SchedulingOrder.UnitsConserved` | src/threads/synch.c:61-126 | over every run the value of a semaphore is what it was plus the ups less the downs that went through |
| `SchedulingOrder.AlarmEffect` | src/devices/timer.c:146-167 | an interrupt moves the clock by one and exactly the due sleepers to the ready list |
| `SchedulingOrder.WakesExactly` | src/devices/timer.c:154-165 | an interrupt wakes exactly the sleepers whose tick has come |
| `SchedulingOrder.NeverEarly` | src/devices/timer.c:100-167 | over every run a sleeper sleeps while the clock is short of its tick |
| `SchedulingOrder.NeverLate` | src/devices/timer.c:100-167 | over every run, after every interrupt exactly the sleepers short of their tick still sleep, the others are ready, and no other step wakes one |
| `Scheduler.Threads.Yield` | src/threads/thread.c:341-355 | a step of the runs that keeps the invariant; a thread of the highest priority runs next, the caller only if every ready thread has a lower one |
| `Scheduler.Threads.SetPriority` | src/threads/thread.c:417-424 | keeps the invariant; exactly that priority changes, and equals on the ready list keep their order |
| `Scheduler.Threads.SemaDown` | src/threads/synch.c:61-77 | keeps the invariant; with no unit left the caller is the last waiter, blocked, and the thread to be picked runs; otherwise it takes a unit, and the lock if it is one; nothing else changes |
| `Scheduler.Threads.SemaUp` | src/threads/synch.c:109-126 | a step of the runs that keeps the invariant; one unit more, and the longest waiter of the highest priority is ready |
| `Scheduler.Threads.LockPriorityDonate` | src/threads/synch.c:226-240 | meets a NULL holder unless every lock on its way is held; otherwise keeps the invariant, raises exactly the lower threads on the way to the donated priority, and leaves no waiter ahead of a holder if only waiters of this lock were |
| `Scheduler.Threads.LockAcquire` | src/threads/synch.c:200-223 | if and only if its walk meets no NULL holder: a free lock is the caller's; otherwise its priority goes to the threads on the way, it is the last waiter, blocked, and no ready thread is ahead of the one that runs |
| `Scheduler.Threads.LockRelease` | src/threads/synch.c:268-282 | a step of the runs that keeps the invariant; the lock has no holder, and its longest waiter of the highest priority is ready |
| `Scheduler.Threads.TimerSleep` | src/devices/timer.c:100-115 | a step of the runs that keeps the invariant; the caller sleeps, blocked, until its tick, and the thread to be picked runs |
| `Scheduler.Threads.Exit` | src/threads/thread.c:322-339 | a step of the runs that keeps the invariant; the caller is dying, and the thread to be picked runs |
| `Scheduler.Threads.TimerInterrupt` | src/devices/timer.c:146-167 | a step of the runs that keeps the invariant; the clock moves by one and exactly the due sleepers are ready |
| `HashTable.AndMask` | src/lib/kernel/hash.c:305-310 | masking with a power of two less one is the remainder |
| `HashTable.TurnOffLeast` | src/lib/kernel/hash.c:328-340 | clearing the lowest set bit keeps the highest, and gives zero exactly for powers of two |
| `HashTable.AnswerUnique` | src/lib/kernel/hash.c:314-326 | no two elements are equal, so a lookup has one right answer |
| `HashTable.AnswersAgree` | src/lib/kernel/hash.c:98-154 | the answers of any sequence of operations depend only on what the table held, not on buckets or on which resizings found memory |
| `HashTable.Distribute` | src/lib/kernel/hash.c:387-410 | every element moves to the bucket its hash selects among the new ones, and none is lost or doubled |
| `HashTable.Table.constructor` | src/lib/kernel/hash.c:24-42 | four empty buckets, no elements |
| `HashTable.Table.FindElem` | src/lib/kernel/hash.c:314-326 | an equal element of the searched bucket, or none if and only if the whole table has none |
| `HashTable.Table.IdealCount` | src/lib/kernel/hash.c:364-372 | the largest power of two within max(4, elements / 2) |
| `HashTable.Table.Rehash` | src/lib/kernel/hash.c:351-413 | the same elements, each in its bucket, in about half as many buckets, or in the old ones if no memory was found |
| `HashTable.Table.Insert` | src/lib/kernel/hash.c:98-110 | the equal element if there is one and nothing changes; otherwise the new element is added; the table has its size again |
| `HashTable.Table.Replace` | src/lib/kernel/hash.c:114-127 | the new element takes the place of the equal one, which is returned; the table has its size again |
| `HashTable.Table.Find` | src/lib/kernel/hash.c:131-135 | the equal element if and only if there is one |
| `HashTable.Table.Delete` | src/lib/kernel/hash.c:144-154 | exactly the equal element goes, and is returned; the table has its size again |
| `HashTable.Table.Clear` | src/lib/kernel/hash.c:53-74 | nothing is left, the buckets stay |
| `HashTable.Table.Run` | src/lib/kernel/hash.c:98-154 | any run of operations with any resizings failing is a run on a finite map |
| `Heapsort.FloatDown` | src/lib/stdlib.c:101-122 | one step down keeps the heap but for the element on its way |
| `Heapsort.RootIsLargest` | src/lib/stdlib.c:146-151 | the root of a heap is its largest element |
| `Heapsort.TakeLargest` | src/lib/stdlib.c:149-150 | moving the root to the end makes the ordered suffix longer, still above the rest |
| `Heapsort.Largest` | src/lib/stdlib.c:103-112 | the largest of a node and its children |
| `Heapsort.Heapify` | src/lib/stdlib.c:96-123 | the heap grows to the node; the same elements in the prefix, the rest untouched |
| `Heapsort.Sort` | src/lib/stdlib.c:131-152 | every array ends in order with the same elements |
| `Heapsort.BinarySearch` | src/lib/stdlib.c:184-207 | a match if and only if there is one |
| `Malloc.BlockInPage` | src/threads/malloc.c:266-294 | block and arena addresses convert back and forth, and a block lies inside its page clear of the header |
| `Malloc.LiveInArena` | src/threads/malloc.c:89-154 | a live block lies in bounds, in its arena's pages, clear of the header |
| `Malloc.LiveDisjoint` | src/threads/malloc.c:89-154 | two live blocks never share a byte |
| `Malloc.FullWhenAll` | src/threads/malloc.c:241-253 | the free count reaches the blocks per arena exactly when all its blocks are free |
| `Malloc.AllFreedRestores` | src/threads/malloc.c:218-264 | when everything is freed no arena is left and the page bitmap is what it was |
| `MallocSteps.PagesTake` | src/threads/palloc.c:77-108 | a free run of pages given to an arena keeps arenas apart and the bitmap exact |
| `MallocSteps.PagesGive` | src/threads/palloc.c:124-149 | giving an arena's pages back keeps the bitmap exact |
| `MallocSteps.OpenedKeeps` | src/threads/malloc.c:125-146 | a new arena with all blocks free keeps the invariant, and no block becomes live |
| `MallocSteps.PoppedKeeps` | src/threads/malloc.c:148-153 | the block handed out was not live, and all counts are right again |
| `MallocSteps.PushedKeeps` | src/threads/malloc.c:238-242 | a freed block on its list keeps the invariant |
| `MallocSteps.ClosedKeeps` | src/threads/malloc.c:242-253 | an idle arena's blocks leave the list and its page goes back, nothing else changes |
| `MallocSteps.BigTakenKeeps` | src/threads/malloc.c:105-120 | a big block gets enough pages of its own |
| `MallocSteps.BigGivenKeeps` | src/threads/malloc.c:257-262 | a big block's pages go back |
| `MallocRuns.RunKeeps` | src/threads/malloc.c:89-264 | every heap reachable by any sequence of allocations and frees satisfies the invariant, with an arena kept only while it has a block in use |
| `MallocRuns.NothingLost` | src/threads/malloc.c:89-264 | over every run live blocks never overlap, and once all are freed the page bitmap is what it was at the start |
| `Allocator.Blocks.FindDesc` | src/threads/malloc.c:100-105 | the smallest descriptor that is large enough |
| `Allocator.PageCountIsLeast` | src/threads/malloc.c:109-109 | a big block takes the least number of pages that hold it and a header |
| `Allocator.Blocks.Alloc` | src/threads/malloc.c:89-154 | a block not live before, at least as large as asked, if and only if its free list has one, a page is free, or the least number of pages in a row is; it is the first of the list, the first of a new page, or those pages, and exactly those pages are taken; this is a step of the runs; otherwise nothing changes |
| `Allocator.Blocks.Free` | src/threads/malloc.c:218-264 | exactly that block is no longer live, and every other block keeps its bytes; it is first on its free list, unless its page has no other block in use and goes back; a step of the runs |
| `Allocator.Blocks.UsableSize` | src/threads/malloc.c:177-186 | the block's size, at least what was asked for |
| `Allocator.Blocks.Realloc` | src/threads/malloc.c:194-214 | the common prefix moves with the block; on failure nothing changes; other blocks keep their bytes |

## Left out

- Device drivers, boot code, the console, ELF loading, path walking and system call dispatch are not modelled; disk reads and writes are array accesses.
- The `INDEXED_STRUCTURE` inode layout and builds without `PRJ3` or `PRJ4`.
- Concurrency inside the buffer cache, the page-fault handler, the file system and malloc: each call is one step, and their locks are not modelled.
- Bitmap words: bits are an array of booleans, so the packing of bits into words (src/lib/kernel/bitmap.c:36-72) is not modelled.
- `bitmap_write` of the free map to its own file: the free map is the in-memory bitmap.
- `FileSystem.Volume.AllocateInodeDisk`: allocate_inode_disk ignores a failed free_map_allocate (src/filesys/inode.c:853 and 860) and goes on with a stale sector number; the model stops there and says only when that happens.
- `WriteWalks.SparesIff`: asks that a write which starts inside a sector does not follow a link to that sector later; `SparedStays` needs no such condition.
- `StrayWrites.StraySparesIff`: the direction from "no buffer does harm" to "clear" is left open where the write starts inside a sector that is itself a node it will follow; the buffer then controls only part of that node.
- Kernel `malloc` and `calloc` failures in the file system and in the page-fault handler.
- `Bitmaps.Bitmap.constructor`: bitmap_create returning NULL when malloc fails is not modelled.
- `HashTable.Table.constructor`: hash_init returning false when malloc fails is not modelled.
- `PageFaults.FaultIsFaithful`: a killed process is left as it is; thread_exit tearing it down is not modelled.
- `MemoryRuns.NothingLoadedInv`: the stack page that setup_stack makes resident comes with the first fault on it.
- `MappedFiles.MappedFileRoundTrip`: evictions are those of page_fault; setup_stack's own eviction and other writers of the file are not modelled.
- The converse that every marked swap slot is in use: a slot is marked even when the victim goes to its file.
- `Donation.Walk`: the walk without the reschedules at the end of its priority changes. In runs each raise is a step, may be of any held lock, and may be followed by a yield; where an interrupted walk had got to is not tracked.
- The exact donated priority after a release: recalculate_priority looks only at the first waiter of each held lock, so a release is followed by an arbitrary priority change.
- Condition variables, lock_try_acquire, lock_release_all and the multi-level feedback queue stubs.
- `Scheduler.Threads.TimerSleep`: wake-up ticks are 32-bit, so the sum with the clock must fit.
- `Allocator.Blocks.Alloc`: a size whose page count computation would wrap 32 bits is excluded; arena headers and free-list links are kept beside memory, not in it.
- calloc, hash iteration, the FNV hash functions, list_unique, list_max and list_min would only add easy members.
- `Heapsort.Sort`: elements are values, so the byte-wise swap and the element size are not modelled.
