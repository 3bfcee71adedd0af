# A verified model of Moonix

Moonix is a small RISC-V kernel. This project models four of its subsystems in Dafny, each as a concrete data structure
that agrees with a much simpler object on every run, and proves what the source promises about them.
`dafny verify dfyconfig.toml` checks everything.

**Buddy heap** (`kernel/heap.c`; the same algorithm in `user/malloc.c`). `BuddySpec` is the heap as a tree of free, live and
split blocks. `BuddyArray` shows that the array of longest free runs is a function of that tree, and that the loops of
buddyAlloc and buddyFree keep it so although they leave the entries below a live block stale. The results hold for every
power-of-two heap. `Heap` adds runs of calls and the bytes of the two instances.

**Physical frames and the Sv39 page table** (`kernel/memory.c`, `kernel/mapping.c`, `kernel/elf.c`). `Frames` is the
segment tree of flags as a set of free frames. `Sv39` holds memory as pages of words and the walk of the processor
(RISC-V Privileged Architecture v1.11, section 4.4 with the algorithm of section 4.3.2). `Mapping`, `Segments` and `Framed`
build the tables in the frames they allocate and prove that they refine a partial map; `Translation` says what the processor
then sees; `MappingKeys` says when segments fit; `ElfFormat` is the layout of the file headers; `KernelSpace` and `Elf` do
all this for the kernel's own mapping and for the image of a user program.

**Threads** (`kernel/processor.c`, `threadpool.c`, `rrscheduler.c`, `condition.c`, `stdin.c`, `queue.c`, `syscall.c`).
Kernel code runs with interrupts off, so one trap is one atomic step. `ThreadMachine` is the state machine of these steps,
`ThreadRuns` proves what holds in all runs, `ThreadProgress` what a run can always go on to, and `Queue`, `RRScheduler` and
`Processor` are the linked queue, the array-linked scheduler and the processor, whose methods take exactly those steps.

**SimpleFS** (`mkfs/mksfs.c`, `kernel/fs.c`). `SimpleFS` says what it means for an image of blocks to store a host directory
tree, `ImageBuilder` and `ImageMain` lay a tree out, `FsReader` resolves paths and reads files, `FsRoundTrip` puts the two
programs together, and `LostEntries` shows on a concrete directory what goes wrong between them.

## How the source is read

- Shifts and masks on machine words appear as the multiplications, divisions and remainders that they are; where a word can
  wrap around (the end address of a segment, the time slice, the block count of an empty file) the wrap-around is written out.
- Panics and `exit(1)` are outcomes of the methods; after one nothing runs any more. In the thread machine a step that runs
  out of memory in the kernel is the event `OutOfMemory`, which can come in place of any step and halts the machine.
- Memory that C leaves uninitialised begins as zero: the slots of the thread pool, the scheduler's table, the `indirect`
  fields that mksfs tests.
- `switchThread` is the transfer of control between two steps. Whether a thread was suspended inside popChar or in user mode,
  which the source keeps in its saved context, is a field of its slot.
- Blocks of a SimpleFS image are typed: what the C programs reach through a cast is a constructor. Where the C code would read
  memory that is not in the block it expects, the model returns `Undefined` or `Unreadable`.
- Page tables are accessed directly at their frame; `KernelSpace.LoadThroughLinearMapping` is the justification.
- Types such as `Lookup`, `Progress`, `Filling` and `StoredEntry` are records that carry a guarantee, stated for all values of a
  parameter `name` that means nothing. The solver sees such a guarantee only where a proof asks for it, as in
  `assert Finds(f, 0)`.

## Where the code differs from what is said about it

- `newAllocator` never hands out the last frame of its range (`kernel/memory.c:112-114`); `NewAllocator` states the exact set.
- `mapFramedAndCopy` ignores the offset of the start address in its page (`kernel/mapping.c:104`). Data load in place exactly
  under the shift that `LoadedFromStartAddress` states; `UnalignedStartIsShifted` is the failing case.
- `lookup` scans the indirect items from the wrong place and takes the block number from another (`kernel/fs.c:83-90`, against
  `mkfs/mksfs.c:218-226`). It returns the right inode exactly for an entry whose position among the kept entries is below ten.
  From position 10 to 21 it finds nothing (in a directory of at most 126 entries); from 22 to 135 it returns the superblock.
- Two slashes in a path make `lookup` start over at the root (`kernel/fs.c:43-46`), as `TwoSlashesStartOver` states.
- mksfs computes 1048576 blocks for an empty file (`mkfs/mksfs.c:175`). `readall` copies nothing for it, as it should, but
  loads an item in each of 1048436 passes from behind the indirect block, within the 32 MiB from the start of the image.
- The comment in popChar (`kernel/stdin.c:34-42`) is right about every run exactly when at most one shell is started:
  with more, `WokenReaderSleepsAgain` is a run in which a woken reader finds no character.

## Model

| member | source | states |
|---|---|---|
| `BuddySpec.TreeIsDetermined` | kernel/heap.c:90-94 | Two trees of the same height with the same live blocks are equal: the heap state is a function of the set of live blocks |
| `BuddySpec.LiveBlocksApart` | kernel/heap.c:145-150 | Live blocks never overlap |
| `BuddySpec.LongestMeaning` | kernel/heap.c:126-129 | The root value is at least 2^k exactly when some aligned block of size 2^k meets no live block |
| `BuddySpec.LongestOfJoin` | kernel/heap.c:191-199 | The array rule of buddyFree (merge two full halves, else the maximum) computes the largest free block of the joined halves |
| `BuddySpec.AllocIsPlace` | kernel/heap.c:131-160 | The descent reaches a legal place and makes exactly that place live |
| `BuddySpec.PlaceAddsBlock` | kernel/heap.c:145-150 | Placing a legal block adds that block to the live blocks and nothing else |
| `BuddySpec.LeastHarm` | kernel/heap.c:132-143 | No legal placement of the rounded size leaves a larger free block than the greedy descent does |
| `BuddySpec.LeastHarmAmongAllHeaps` | kernel/heap.c:132-143 | The same, in terms of live blocks alone: any heap with one more legal block of the requested size has at most the largest free block that buddyAlloc leaves |
| `BuddySpec.EmptyHeapServesFromItsStart` | kernel/heap.c:132-143 | Of two halves that offer the same the lower one is taken: an empty heap is served from its start |
| `BuddySpec.ReleaseOfFree` | kernel/heap.c:178-183 | Freeing an offset in free space changes nothing |
| `BuddySpec.ReleaseIsExact` | kernel/heap.c:166-201 | Freeing any offset inside a live block removes precisely that whole block |
| `BuddySpec.ReleaseUndoesPlace` | kernel/heap.c:166-201 | Freeing any part of a block just placed restores the tree |
| `BuddyArray.FixSize` | kernel/heap.c:42-52 | The smearing computes the least power of two that is at least the argument |
| `BuddyArray.FixSizeIsCeil` | kernel/heap.c:42-52 | The bit-smeared value plus one is the least power of two at least n, for every n up to 2^30 |
| `BuddyArray.RoundedIsLeast` | kernel/heap.c:42-52 | The block size served has room for the request, and half of it would not have |
| `BuddyArray.RoundUp` | kernel/heap.c:122-124 | The request that is served: 1 for a request that is not positive, otherwise the least power of two at least the request |
| `BuddyArray.Climb` | kernel/heap.c:155-160 | After one block changes between free and live, the array to be reached differs only at that block and on the path above it, where each entry follows from its two children |
| `BuddyArray.BuddyTree.BuddyInit` | kernel/heap.c:96-109 | Afterwards the array is that of the empty heap, whatever it held before |
| `BuddyArray.BuddyTree.BuddyAlloc` | kernel/heap.c:115-163 | -1 exactly when no aligned free block of the rounded size exists; otherwise the block is legal, becomes live, and is the one of the greedy descent; the array is again the image of the tree |
| `BuddyArray.BuddyTree.TakeBlock` | kernel/heap.c:131-162 | A request that can be served ends in the tree and at the offset of the greedy descent |
| `BuddyArray.BuddyTree.Descend` | kernel/heap.c:131-143 | The loop from the root reaches the node that the specification descent reaches |
| `BuddyArray.BuddyTree.RaiseParents` | kernel/heap.c:155-160 | The upward loop restores every entry above the block just taken |
| `BuddyArray.BuddyTree.BuddyFree` | kernel/heap.c:166-201 | Releases the live block that contains the offset, or nothing; the array is again the image of the tree |
| `BuddyArray.BuddyTree.FindLive` | kernel/heap.c:174-183 | The climb to the first 0 finds the node of the live block and its size, or reports that there is none |
| `BuddyArray.BuddyTree.MergeParents` | kernel/heap.c:186-200 | The merging loop restores every entry above the block just freed |
| `BuddyRuns.RunRefinesSets` | kernel/heap.c:115-201 | Every run of allocations and frees is a run of the allocator that keeps only a set of live blocks |
| `BuddyRuns.ArrayIsDetermined` | kernel/heap.c:90-94 | After any two runs with the same live blocks the arrays are equal |
| `BuddyRuns.AllFreedCoalesces` | kernel/heap.c:186-200 | Once every block has been freed, in whatever order, the array is the one of buddyInit |
| `BuddyRuns.FreeAfterAlloc` | kernel/heap.c:166-201 | Freeing any part of the block just allocated restores the whole array |
| `Heap.ByteHeap.Kernel` | kernel/heap.c:32-36 | The kernel heap starts valid and empty with 0x20000 blocks of 0x40 bytes |
| `Heap.ByteHeap.User` | user/malloc.c:51-55 | A user heap starts valid and empty with 0x80 blocks of 0x20 bytes |
| `Heap.ByteHeap.Kalloc` | kernel/heap.c:55-72 | 0 for a request that is not positive; panic exactly when no block fits; otherwise a granted block whose bytes are zero, every live block keeps its bytes, and freeing the pointer frees that block |
| `Heap.ByteHeap.Kfree` | kernel/heap.c:75-83 | Pointers outside the heap are ignored, any other frees the live block it points into; no byte changes |
| `Heap.GrantIsEnough` | kernel/heap.c:59-65 | A granted block has room for the request, lies inside the heap and apart from every live block |
| `Heap.GrantIsTight` | kernel/heap.c:59-65 | Half of a granted block would be too small for the request |
| `Heap.PointerIntoGrant` | kernel/heap.c:75-83 | The address handed out points into the heap and into the block that was taken |
| `Heap.LiveBytesKept` | kernel/heap.c:63-69 | No byte of a block that is live before an allocation belongs to the block granted by it |
| `Heap.ByteHeap.ClearBlock` | kernel/heap.c:63-69 | The granted block is zeroed, and every block that was live keeps all its bytes |
| `Frames.FlagIsConjunction` | kernel/memory.c:115-117 | A flag of the segment tree is the conjunction of all leaf flags below it |
| `Frames.LeavesDetermineTree` | kernel/memory.c:141-146 | The leaf flags determine all inner flags |
| `Frames.FrameAllocator.NewAllocator` | kernel/memory.c:99-120 | Afterwards exactly the frames from startPpn to endPpn - 2 are free |
| `Frames.FrameAllocator.Alloc` | kernel/memory.c:126-148 | Panics exactly when no frame is free; otherwise removes and returns the smallest free frame |
| `Frames.FrameAllocator.Descend` | kernel/memory.c:132-139 | The walk from the root ends at the leftmost free leaf |
| `Frames.FrameAllocator.SetLeaf` | kernel/memory.c:141-146 | After a leaf is written, the upward loop makes every inner flag right again |
| `Frames.FrameAllocator.Dealloc` | kernel/memory.c:154-168 | Adds the frame to the free ones; a frame that is free already changes nothing in the array |
| `Memory.PageByteOfSet` | kernel/mapping.c:120-132 | A byte written to a page is read back there and nowhere else |
| `Sv39.WalkIsLookup` | kernel/mapping.h:11-17 | The three-level hardware walk over the tables in memory computes exactly the partial map that they represent |
| `TableUpdates.AddDir` | kernel/mapping.c:45-49 | Hanging a zeroed free frame below an empty root entry keeps the tables a tree that represents the same partial map |
| `TableUpdates.AddSub` | kernel/mapping.c:45-49 | The same below a middle table |
| `TableUpdates.AddLeaf` | kernel/mapping.c:71-71 | Writing a last-level entry extends the partial map at exactly its page |
| `TableUpdates.SlotAgreement` | kernel/mapping.c:13-19 | In one tree of tables two pages share a last-level slot exactly when they agree modulo 2^27 |
| `MappingState.PhysicalMemory.AllocFrame` | kernel/memory.c:32-46 | Returns the address of the first free frame, zeroed and no longer free, or panics exactly when none is free; no other frame changes |
| `MappingState.GrownTransitive` | kernel/mapping.c:45-49 | Along any sequence of mappings no table moves, new tables come from free frames, and no page outside tables and free frames is written |
| `Segments.GetVpnLevels` | kernel/mapping.c:13-19 | The three indices are the keys of the tables and the slot of the page |
| `Segments.WithValid` | kernel/mapping.c:71-71 | The stored flags have the valid bit, and all other bits are those of the segment |
| `Segments.PagesOfBytes` | kernel/mapping.c:62-65 | The pages visited for a segment are exactly those that hold one of its bytes |
| `Segments.PagesOfWrapped` | kernel/mapping.c:62-65 | A segment whose end address wraps around gets no page, or only the one in which both ends lie |
| `Segments.PagesOfNothing` | kernel/mapping.c:62-65 | An empty segment takes no page when it begins at the start of a page, and one otherwise |
| `Segments.NextTable` | kernel/mapping.c:43-51 | Follows an entry, or fills it with a fresh zeroed table; panics exactly when a table is missing and no frame is free |
| `Segments.FindEntry` | kernel/mapping.c:37-54 | Finds the slot of the page, adding only missing tables; panics exactly when there are fewer free frames than missing tables |
| `Segments.SlotsAgree` | kernel/mapping.c:37-54 | Two lookups with any mappings in between return the same slot exactly when the pages agree modulo 2^27 |
| `Segments.AddPagesLookup` | kernel/mapping.c:65-72 | What a run of pages adds: old pages as before, each new page its entry, nothing else |
| `Segments.NextClash` | kernel/mapping.c:68-70 | The next page is found mapped exactly when it clashes with an old page or, modulo 2^27, with an earlier page of the run |
| `Segments.MapsOneMore` | kernel/mapping.c:65-72 | One pass of the loop extends the mapped run by one page and takes exactly the frames of the missing tables and of the page |
| `Segments.MapLinearSegment` | kernel/mapping.c:60-73 | Succeeds exactly when no page of the segment is mapped and the frames suffice for the tables; then maps each page at the fixed distance and spends exactly the new tables |
| `Framed.MapFramedSegment` | kernel/mapping.c:79-92 | Succeeds exactly when no page is mapped and the frames suffice for tables and pages; then each page has a zeroed frame of its own, and exactly those frames and the new tables are spent |
| `Framed.MapFramedAndCopy` | kernel/mapping.c:99-138 | The same, and the frames hold the data page by page with zeros behind it |
| `Framed.CopyPage` | kernel/mapping.c:117-133 | The copying loops fill one page with the next bytes and zeros |
| `AddressTranslation.WalkAfterMapping` | kernel/mapping.c:60-92 | After a segment has been mapped the walk is the old partial map plus exactly the pages of the segment |
| `AddressTranslation.TranslationKept` | kernel/mapping.c:37-54 | A page that was mapped translates as before after any further mappings |
| `AddressTranslation.LinearTranslation` | kernel/mapping.c:71-71 | Page i of a linear segment leads to the frame at the fixed distance with the flags of the segment and the valid bit |
| `AddressTranslation.FramedTranslation` | kernel/mapping.c:90-90 | Page i of a framed segment leads, with the flags of the segment and the valid bit, to a frame that was free, is no table, holds its page, and differs from the frame of every other page |
| `AddressTranslation.LoadedContents` | kernel/mapping.c:112-136 | Byte k from the first page on, loaded through the translation, is byte k of the data or zero behind it |
| `AddressTranslation.LoadedFromStartAddress` | kernel/mapping.c:104-104 | From the start address the data is shifted by the offset of that address in its page; without offset it is in place |
| `AddressTranslation.UnalignedStartIsShifted` | kernel/mapping.c:104-104 | With a start address inside a page there are data that do not load in place |
| `AddressTranslation.ContentsKept` | kernel/mapping.c:99-138 | The contents of a segment survive all later mappings |
| `PageRuns.NewTablesAppend` | kernel/mapping.c:45-49 | The tables that a run of pages needs can be counted part by part |
| `PageRuns.TablesForRun` | kernel/mapping.c:45-49 | In an empty address space an aligned run of n pages inside one middle table needs one middle table and ceil(n/512) last-level tables |
| `KernelSpace.InitFrameAllocator` | kernel/memory.c:76-79 | The free frames are exactly those wholly between the end of the kernel and the end of memory, apart from the first and the last of them |
| `KernelSpace.NewMapping` | kernel/mapping.c:25-31 | Panics exactly when no frame is free; otherwise a sound address space of one empty root table |
| `KernelSpace.NewKernelMapping` | kernel/mapping.c:157-203 | Never hits a mapped page; succeeds exactly with more than 64 free frames, takes 65, and maps page by page from text to the end of memory with the flags of each section |
| `KernelSpace.KernelTranslation` | kernel/mapping.c:162-200 | Page i of the kernel leads to the frame at the fixed distance with the flags of its section |
| `KernelSpace.KernelPermissions` | kernel/mapping.c:162-200 | In numbers: text is read and executed, rodata only read, everything behind it read and written; nothing is writable and executable, and nothing is open to user programs |
| `KernelSpace.OldFramesKept` | kernel/mapping.c:157-203 | Frames that were not free when an address space was made keep their contents in it |
| `KernelSpace.KernelStillThere` | kernel/memory.c:76-79 | With the allocator of initMemory no mapping touches the sections of the kernel: at each of its addresses it sees, in every new address space, the byte that was there before |
| `KernelSpace.EveryFrameMapsToItself` | kernel/mapping.c:251-255 | Every frame behind the kernel, so every one the allocator can return, translates to itself at accessVaViaPa, readable and writable, whatever is mapped besides |
| `KernelSpace.LoadThroughLinearMapping` | kernel/mapping.c:251-255 | A load at accessVaViaPa(pa) sees the byte at pa, for all memory from the kernel on |
| `Elf.PteFlags` | kernel/elf.c:17-32 | The entry flags are valid, for user mode, and have exactly the permissions of the program header |
| `Elf.ConvertElfFlags` | kernel/elf.c:17-32 | The accumulated bits are those flags |
| `ElfFormat.MagicBytes` | kernel/elf.h:7-12 | The magic number is right exactly when the file begins with 0x7f and ELF |
| `ElfFormat.ElfHeaderIsRead` | kernel/elf.h:10-26 | Reading an ELF header that is laid out field by field gives back its fields |
| `ElfFormat.ProgHeaderIsRead` | kernel/elf.h:29-38 | Reading a program header that is laid out field by field, anywhere in a file, gives back its fields |
| `ElfFormat.WrittenIsFile` | kernel/elf.h:10-38 | Header, gap, program headers and anything behind them, written one after the other, are such a file |
| `Elf.HeadersOfFile` | kernel/elf.c:49-54 | The kernel sees the program headers of such a file, each with its own fields |
| `MappingKeys.TablesNeededIsNewTables` | kernel/mapping.c:45-49 | How many tables a segment needs depends only on which tables and pages the address space has |
| `MappingKeys.KeysOfMapped` | kernel/mapping.c:79-92 | A mapping has exactly the tables and pages of its run in addition |
| `MappingKeys.MappableByKeys` | kernel/mapping.c:79-92 | Whether a framed segment can be mapped, and what it costs, depends only on which tables and pages there are and on the number of free frames |
| `MappingKeys.WhenRunsFit` | kernel/elf.c:53-69 | Segments can be mapped in their order exactly when all their pages are unmapped, no two of them share a page, and the free frames suffice for all together |
| `Elf.MapHeader` | kernel/elf.c:58-68 | A LOAD header is mapped exactly when its pages are unmapped and the frames suffice; then its bytes are readable, and exactly its tables, pages and frames have been added |
| `Elf.MapHeaders` | kernel/elf.c:53-69 | The loop succeeds exactly when the segments of all LOAD headers fit one after the other (WhenRunsFit says when); then every LOAD header has its bytes readable through the final address space |
| `Elf.NewUserMapping` | kernel/elf.c:38-71 | Succeeds exactly with more than 64 free frames, the right magic number, and LOAD segments that fit beside the kernel into all but 65 of the frames; then the kernel mapping and the bytes of all LOAD headers are there together; an unknown file type is reported exactly for a wrong magic number behind the kernel mapping |
| `Elf.ImageInPlace` | kernel/elf.c:59-68 | A page-aligned segment shows at each address of its memory the byte of the image, and zeros behind its data |
| `Elf.FileInPlace` | kernel/elf.c:53-69 | For a file laid out as the structures say: a readable segment is in memory from vaddr on, filesz bytes from off on and then zeros up to memsz, on pages with the user bit and exactly the permissions of the flags |
| `Queues.Queue.PushBack` | kernel/queue.c:16-28 | Appends to the sequence that the linked nodes hold |
| `Queues.Queue.PopFront` | kernel/queue.c:30-47 | Removes and returns the first item |
| `Queues.Queue.IsEmpty` | kernel/queue.c:49-57 | True exactly for the empty sequence |
| `RoundRobin.BoundedWait` | kernel/rrscheduler.c:60-75 | A thread with k others ahead is returned by exactly the (k + 1)-th pop, whatever is pushed, ticked or ended meanwhile |
| `RoundRobin.PushKeepsSlices` | kernel/rrscheduler.c:48-50 | No time slice exceeds the maximum and every listed thread has time left |
| `RoundRobin.PopKeepsSlices` | kernel/rrscheduler.c:60-75 | The popped thread has between 1 and maxTime ticks left |
| `RoundRobin.TickKeepsSlices` | kernel/rrscheduler.c:77-90 | The unsigned decrement never wraps, and the turn ends exactly when nothing is left |
| `RoundRobin.SliceAccount` | kernel/rrscheduler.c:42-90 | The account of a thread: what it has left and what it was charged is what it had and one full slice per renewal, so waiting and being pushed again gain and cost nothing |
| `RoundRobin.NobodyPaysAfterExit` | kernel/rrscheduler.c:92-99 | From the end of the running thread to the next pop no tick is charged to anyone |
| `RRScheduling.CirclePush` | kernel/rrscheduler.c:51-57 | Linking a thread in before the head keeps the arrays one circle without repeats, with the thread at the end |
| `RRScheduling.CirclePop` | kernel/rrscheduler.c:63-73 | Unlinking the first thread keeps the arrays one circle of the others |
| `RRScheduling.RRScheduler.constructor` | kernel/rrscheduler.c:32-40 | The empty list with slices of one tick |
| `RRScheduling.RRScheduler.Push` | kernel/rrscheduler.c:42-58 | The list gets the thread at its end, with a renewed slice if it was used up; panics exactly for a thread number out of range |
| `RRScheduling.RRScheduler.Pop` | kernel/rrscheduler.c:60-75 | Returns the front of the list, or -1 |
| `RRScheduling.RRScheduler.Tick` | kernel/rrscheduler.c:77-90 | Counts one tick of the current thread and says whether its slice is used up |
| `RRScheduling.RRScheduler.Exit` | kernel/rrscheduler.c:92-99 | An ended thread is no longer the current one |
| `ThreadMachine.StepKeepsPartition` | kernel/processor.c:37-173 | Every step keeps each thread in exactly one place: on the processor, on the run list, in the wait queue, or asleep for exactly one child |
| `ThreadMachine.KeyKeepsPartition` | kernel/stdin.c:27-32 | The same for a character from the keyboard |
| `ThreadMachine.TickKeepsPartition` | kernel/processor.c:72-89 | The same for a clock tick |
| `ThreadMachine.ReadKeepsPartition` | kernel/stdin.c:39-51 | The same for a pass of the loop in popChar |
| `ThreadMachine.ExecKeepsPartition` | kernel/syscall.c:31-44 | The same for a new program and the sleep of its parent |
| `ThreadMachine.ExitKeepsPartition` | kernel/processor.c:92-108 | The same for a thread that ends and wakes its parent |
| `ThreadMachine.DispatchKeepsPartition` | kernel/processor.c:45-66 | The same for a pass of the idle loop |
| `ThreadMachine.WokenThreadsAreNotListed` | kernel/processor.c:145-151 | A thread that is woken is asleep and not on the run list, so the scheduler never lists a thread twice |
| `ThreadMachine.SleeperHasOneWaker` | kernel/processor.c:98-105 | A sleeper waits for input or for a child, never both, and for one child only |
| `ThreadMachine.ExecOutcome` | kernel/threadpool.c:19-42 | exec of a program panics when every slot is taken; otherwise a free slot holds a ready thread, listed last, and its parent sleeps |
| `ThreadRuns.StepKeepsSlices` | kernel/processor.c:72-89 | Along all steps the running thread has between 1 and maxTime ticks left |
| `ThreadRuns.StepLosesNoWakeup` | kernel/condition.c:17-35 | While threads wait for input, the buffer never holds more characters than there are woken readers |
| `ThreadRuns.StepKeepsInput` | kernel/interrupt.c:62-78 | Enter arrives as a newline and every other character as it is; what readers got and the buffer are what was delivered, in order |
| `ThreadRuns.RunsAreSafe` | kernel/processor.c:37-173 | All of these in every state of every run from boot, for any number of threads and any slice length; the input is what the keyboard delivered |
| `ThreadRuns.SomeReaderIsWoken` | kernel/condition.c:28-35 | A positive count of woken readers means that one of them is on the run list |
| `ThreadRuns.ListedThreadMovesUp` | kernel/processor.c:45-66 | A listed thread moves up by one with every dispatch, whatever else happens |
| `ThreadRuns.TurnComes` | kernel/processor.c:45-66 | A thread with k others ahead gets the processor with the (k + 1)-th dispatch |
| `ThreadRuns.OneShellMakesAChain` | kernel/thread.c:156-180 | From boot with one shell the live threads always form one chain of waiting programs, and every listed reader finds a character |
| `ThreadRuns.OnlyTheTipIsAwake` | kernel/processor.c:92-108 | On a chain exactly the tip is not asleep for a child |
| `ThreadRuns.SecondPassSucceeds` | kernel/stdin.c:34-51 | With one shell a woken reader gets the first character of the buffer on its second pass |
| `ThreadRuns.AllFallAsleep` | kernel/stdin.c:34-51 | After the theft of a character the running threads go to sleep one after the other, in the order of the run list |
| `ThreadRuns.CommentHoldsForOneShell` | kernel/stdin.c:34-42 | No second pass fails in any run if and only if at most one shell is started at boot |
| `ThreadRuns.WokenReaderSleepsAgain` | kernel/stdin.c:34-42 | For any number of shells from two on and any slice length, a run in which the woken reader is dispatched with an empty buffer and goes back to sleep |
| `ThreadProgress.SliceEnds` | kernel/processor.c:72-89 | A running thread has the processor for exactly the ticks of its slice, and is then ready at the end of the run list with a full one |
| `ThreadProgress.KeyboardIsHeard` | kernel/processor.c:56-66 | With nothing to run the keyboard is heard after at most one pass of the idle loop, and the loop goes on afterwards |
| `ThreadProgress.InterruptsAreLetIn` | kernel/processor.c:45-66 | From any state that is not halted, interrupts are let in again after some passes of the idle loop |
| `ThreadProgress.WokenInOrder` | kernel/condition.c:17-35 | A reader behind k others in the wait queue is woken by exactly the (k + 1)-th key |
| `ThreadProgress.WaitingReaderCanBeServed` | kernel/stdin.c:27-51 | From every state of every run, unless the kernel has panicked, some continuation gives the thread that has waited longest a character |
| `ThreadProgress.ExitListsParent` | kernel/processor.c:92-108 | A thread that ends frees its slot and its parent is ready at the end of the run list; nothing else changes |
| `ThreadProgress.ProgramComesAndGoes` | kernel/syscall.c:31-44 | With nothing else to run, a program that is started and ends at once brings its parent back in the state in which it called exec |
| `Processors.Processor.AllocTid` | kernel/threadpool.c:19-31 | The first free slot, or the panic of a full pool |
| `Processors.Processor.AddToPool` | kernel/threadpool.c:33-42 | The new thread is ready in the first free slot and last on the run list; panics exactly when the pool is full |
| `Processors.Processor.AcquireFromPool` | kernel/threadpool.c:44-65 | The front of the run list becomes the running thread |
| `Processors.Processor.SwitchToIdle` | kernel/threadpool.c:67-86 | A thread that has ended is gone, one that sleeps stays asleep, any other is ready again and listed |
| `Processors.Processor.WakeupCPU` | kernel/processor.c:145-151 | The sleeper is ready and listed |
| `Processors.Processor.YieldCPU` | kernel/processor.c:125-139 | The current thread sleeps and the idle loop takes over |
| `Processors.Processor.NotifyCondition` | kernel/condition.c:28-35 | The first waiting thread, if any, is woken |
| `Processors.Processor.WaitCondition` | kernel/condition.c:17-22 | The current thread waits at the end of the queue and sleeps |
| `Processors.Processor.Key` | kernel/interrupt.c:62-78 | The step of the machine for a character, carriage return becoming newline |
| `Processors.Processor.PopChar` | kernel/stdin.c:39-51 | The step of the machine for one pass: the first character, or sleep |
| `Processors.Processor.TickCPU` | kernel/processor.c:72-89 | The step of the machine for a tick |
| `Processors.Processor.SysExec` | kernel/syscall.c:31-44 | The step of the machine for exec, the panic of a full pool included; nothing happens for a missing file or a directory |
| `Processors.Processor.ExitFromCPU` | kernel/processor.c:92-108 | The step of the machine for exit |
| `Processors.Processor.IdleMain` | kernel/processor.c:45-66 | The step of the machine for one pass of the idle loop |
| `Processors.Processor.Step` | kernel/processor.c:37-173 | The classes take exactly the steps of the machine and keep every thread in one place |
| `SimpleFS.StoredElsewhere` | mkfs/mksfs.c:179-205 | A stored tree stays stored while only blocks of others are written |
| `SimpleFS.KidAt` | mkfs/mksfs.c:210-227 | Every kept entry of a stored directory is itself stored, in the block that its item names |
| `SimpleFS.KeptExactly` | mkfs/mksfs.c:134-208 | An entry gets into the image exactly when it is a file or a directory and not "." or ".." |
| `SimpleFS.KeptInOrder` | mkfs/mksfs.c:134-228 | The entries that get into the image keep their order |
| `SimpleFS.FilledBytes` | mkfs/mksfs.c:183-190 | Block k of a file holds its bytes from 4096 k on, and zeros behind the end |
| `ImageBuilder.OneMoreDataBlock` | mkfs/mksfs.c:183-203 | One pass of the copying loop stores one more block of the file |
| `ImageBuilder.OneMoreEntry` | mkfs/mksfs.c:210-227 | One pass of the directory loop stores one more item |
| `ImageBuilder.Builder.constructor` | mkfs/mksfs.c:47-51 | Superblock, freemap and root inode are the only blocks in use |
| `ImageBuilder.Builder.GetFreeBlock` | mkfs/mksfs.c:233-244 | Takes the first block nobody owns; fails exactly when freenum is 0 |
| `ImageBuilder.Builder.PutItem` | mkfs/mksfs.c:218-226 | Puts an item into the inode or its indirect block, which is taken when it is needed first |
| `ImageBuilder.Builder.StoreData` | mkfs/mksfs.c:179-203 | All blocks of the file are stored; fails exactly when too few blocks are left |
| `ImageBuilder.Builder.StoreFile` | mkfs/mksfs.c:160-205 | The file is stored in blocks of its own and no block in use before changes |
| `ImageBuilder.Builder.StoreDirectory` | mkfs/mksfs.c:141-159 | The same for a directory and everything below it |
| `ImageBuilder.Builder.Walk` | mkfs/mksfs.c:116-231 | The directory is stored with all kept entries, in blocks that had no owner; fails exactly when the tree needs more blocks than are left |
| `ImageMain.PackByte` | mkfs/mksfs.c:82-89 | Eight cells become the bits of one byte |
| `ImageMain.PackFreemap` | mkfs/mksfs.c:79-91 | Bit b of the packed map says whether block b is marked |
| `ImageMain.MakeImage` | mkfs/mksfs.c:40-101 | The image stores the tree; every block has at most one owner, the freemap shows which have one, the superblock counts the others, and these have not been written; fails exactly when the tree needs more than 253 blocks |
| `ImageMain.FreemapOfImage` | mkfs/mksfs.c:79-91 | A bit is set exactly for the superblock, the freemap and the blocks of the tree |
| `ImageMain.UnusedOfImage` | mkfs/mksfs.c:55-77 | The superblock has the number of blocks whose bit is clear |
| `FsReader.LookupInode` | kernel/fs.c:40-93 | The C function with its loops computes the lookup, the superblock taken for an inode included |
| `FsReader.LookupOfJoined` | kernel/fs.c:40-93 | Looking up p/q is looking up q from where p leads, failures included, for p not empty and not ending in a slash |
| `FsReader.AbsolutePath` | kernel/fs.c:43-47 | A path with a leading slash is looked up from the root, whatever directory is given |
| `FsReader.TwoSlashesStartOver` | kernel/fs.c:43-71 | Two slashes in a path start over at the root |
| `FsReader.CopyByteToBuf` | kernel/fs.c:95-102 | Copies the bytes and leaves the rest of the buffer alone |
| `FsReader.ReadInode` | kernel/fs.c:104-138 | The C function with its loops fills the buffer with exactly the bytes that the reading yields, leaves the rest alone, and makes as many loads from behind the indirect block as StrayLoads says |
| `FsReader.ReadFromStored` | kernel/fs.c:104-138 | From block i on, a stored file reads back byte for byte |
| `FsReader.ReadAllOfStored` | kernel/fs.c:104-138 | Every stored file, empty or not, reads back exactly its bytes |
| `FsReader.StrayLoadsOfStored` | mkfs/mksfs.c:175-175 | The reading loads items from behind the indirect block if and only if the file is empty; then it makes 1048436 such loads, all within the 32 MiB from the start of the image |
| `FsRoundTrip.StoredAt` | mkfs/mksfs.c:116-231 | Every node of the tree is stored in the image, below its directory |
| `FsRoundTrip.SearchOutcome` | kernel/fs.c:64-92 | What the search for each entry of a directory yields, exactly: its inode if its position is below ten, nothing from 10 to 21 in a directory of at most 126 entries, the superblock from 22 to 135 |
| `FsRoundTrip.SearchMissesOthers` | kernel/fs.c:64-92 | A name that a directory does not have is not found, unless the scan leaves the indirect block, exactly with more than 126 entries |
| `FsRoundTrip.StepsDown` | kernel/fs.c:40-93 | From any directory on the way, the rest of a path leads to its node if each step is among the first ten entries, and otherwise to what comes of the first step that is not |
| `FsRoundTrip.RightInodeOnlyInFirstTen` | kernel/fs.c:64-92 | That outcome is the inode of the node if and only if each step is among the first ten entries |
| `FsRoundTrip.LookupDown` | kernel/fs.c:40-93 | From any directory on the way to a node, the lookup of the rest of the path yields exactly that outcome |
| `FsRoundTrip.NothingBelowAFile` | kernel/fs.c:49-49 | Nothing is found below a regular file |
| `FsRoundTrip.LookupInDirectory` | kernel/fs.c:64-92 | A directory is its own ".", its ".." is the one above, and a name it does not have is not found |
| `FsRoundTrip.RootIsItsOwnParent` | mkfs/mksfs.c:122-130 | The root is its own ".." |
| `FsRoundTrip.ImageRoundTrip` | kernel/fs.c:40-138 | For every node of the tree: what its absolute path leads to, from any directory, is known exactly; it is the inode that stores the node if and only if each step is among the first ten entries; every file reads back byte for byte, and a directory is refused |
| `FsRoundTrip.DirectoryHasTrail` | kernel/fs.c:186-186 | From every stored directory a trail of ".." items leads to the root |
| `FsRoundTrip.GetInodePath` | kernel/fs.c:166-189 | Ends at the root and leaves in the buffer the zero-terminated path of the directory |
| `FsRoundTrip.PathLeadsBack` | kernel/fs.c:166-189 | The path that is written leads back to the directory, from any other, if and only if each step is among the first ten entries |
| `LostEntries.LookupOfFile` | kernel/fs.c:64-92 | In an image of n one-byte files, the lookup of file k |
| `LostEntries.LookupInImage` | mkfs/mksfs.c:218-226 | mksfs and lookup together, on a directory of n files: the outcome for file k |
| `LostEntries.EleventhFileIsLost` | kernel/fs.c:83-90 | Of eleven files that mksfs has written the tenth is found and the eleventh is not |
| `LostEntries.SuperBlockForTwentyThirdFile` | kernel/fs.c:83-90 | Of twenty-three files the lookup of the last returns the superblock as an inode |

## Left out

- BuddyArray.FixSize: arguments above 2^30, where the C expression overflows a signed int.
- FsReader.Lookup: what the code finds behind the indirect block, once a directory has more than 126 entries, or returns for a block that holds neither an inode nor the superblock; the model says `Undefined`.
- FsReader.ReadInode: where the stray loads of an empty file lead; the model counts them, and their values are never used.
- Processors.Processor.SysExec: how far the step has come when kalloc or newUserThread panics for lack of memory; the machine halts in the state before the step.
- Processors.Processor.Key: likewise, when the queue cannot allocate a node.
- Processors.Processor.WaitCondition: likewise.
- ImageMain.MakeImage: trees with names of 28 characters or more, directories of more than 138 entries and files of more than 140 blocks, for which mksfs writes past the end of a field or block.
- Elf.WellFormed: images whose headers point outside the image; the code does not check this.
- Frames.FrameAllocator.Dealloc: frames outside the allocator's range, for which the code indexes outside its array.
- mapExtInterruptArea, activateMapping and the user stack of newUserThread: four more linear segments, a register write and one more framed segment.
- The copy of the thread record in CPU.current, which the source writes back to the pool; the model keeps the record in the pool.
- Permission checks, accessed and dirty bits, and the translation cache.
- Assembly, context switching, interrupt controllers, timer and console, and printing.
- File descriptors, the dispatch of system calls, `ls`, `pwd`, the shell and the demo programs.
- Host input and output of mksfs, replaced by a tree of names and bytes; the byte layout of inodes and superblock.
