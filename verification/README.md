# SafaOS core: a verified model

This project models the parts of SafaOS where most of its state lives and proves what they keep:
the page tables over the bitmap frame allocator, the kernel's buddy heap, the C library's
`malloc`, the scheduler with its linked list and process tree, the in-memory file system filled from
a ustar archive, and the building of a process image. `dafny verify dfyconfig.toml` checks it all.

Specifications are functions and predicates over values; beside them stand classes whose methods do
what the original does, in place and in loops, and are proved against those functions. The properties
are lemmas about the functions, for all inputs and all runs. Inductions are written out in the lemma
bodies; none is left to the verifier's automatic induction.

| files | what they model |
|---|---|
| `FrameAllocator`, `EntryBits`, `Paging`, `AddressSpace`, `Lifetime`, `Contents`, `Rights`, `PageTables` | bitmap, entry words, four-level tables, the flat map they stand for, the frames of an address space from creation to release, what they hold, what the process may do with them, all of it in place |
| `Chain`, `Malloc`, `Stdlib` | chains of blocks with headers in memory; the C library's heap as steps and as running code |
| `Buddy`, `HeapGrowth`, `BuddyAllocator` | the kernel heap as steps, the pages behind it, and the running code |
| `LinkedList`, `Processes`, `Scheduler` | the list with its cursor; scheduling, process tree, exit, kill and wait as a state machine; the scheduler over the list |
| `RamFs`, `Ustar`, `Unpack`, `Lookup`, `FileSystem`, `Vfs` | inodes and paths, archives byte by byte, the unpacked tree, what paths mean, the file system as an object, drives and the working directory |
| `UserMemory`, `Loader`, `LoadedTables`, `Argv`, `ProcessImage` | copying into an address space, ELF segments, the page tables behind them, the argument block and its reader, all of it in place |
| `Resources` | the resource table of a process |

## Expectations that fail

Each is stated by a lemma; where it fails only sometimes, the lemma says exactly when.

- `PageTable::free` visits entries below 256 at every level, so freeing an address space returns all
  frames if and only if every frame taken is mapped, every table index of every mapped page is below
  256, and so is what failed mappings left (`LifeConserves`, `OnePageLeaks`).
- Loading maps one page more than a segment needs, so segments that lie side by side share a page,
  which is mapped twice and costs a frame for good (`FileConserves`, `AdjacentSegments`, `RemapLeaks`).
- `map_to` without PRESENT succeeds, maps nothing, and unmaps every page under the same entry of the
  topmost table (`LostWithoutPresent`, `MapToNeedsPresent`).
- `map_to` writes the flags of a page into every entry on the way to it, so mapping a page that may not
  be written takes the right to write from the pages under the same entry of the topmost table
  (`MapToGrants`, `RightsLost`).
- Freeing flips bits, so freeing an address space twice marks its frames in use (`ReleaseTwice`).
- A kernel heap of one block hands that block out unseen, so two large requests get the same memory
  (`SameBlockTwice`, `AllocSoundIff`).
- Growing the kernel heap leaves the page of the new end unvisited, so a small block behind a heap
  that ends at a page boundary gets its header on an unmapped page (`AllocMappedIff`,
  `SmallGrowthFaults`, `SmallGrowthReached`).
- A process that killed itself and waits for itself is removed while it is current, and at the front
  of the list the kernel then has no current process (`WaitRemovesCurrentIff`, `CursorAfterSelfWait`,
  `KernelIsLost`). This needs `pkill`, a kernel function that no system call and no kernel code calls
  yet. In every run without a self-kill `wait` never removes the current process (`NoSelfKillIntact`,
  `CurrentStays`), and the results on runs hold throughout; otherwise they hold up to that step.
- A copy of at most a page that crosses a page boundary misses the second page unless its frame
  happens to come next; every copy needs the page of the byte behind its last mapped
  (`CopyWorksIff`, `CrossingExample`).
- A size field that POSIX.1 allows to end with a space makes the archive iterator panic (`SizeExact`),
  and a name is read without its prefix (`NameReadIff`).
- A file that was created is not found by the path it was created with when its name is a dot, holds a
  backslash or is taken for a drive, or when a slash is doubled (`CreateFindsIff`, `CreateDirFindsIff`).
- A path that starts with a slash is put behind the working directory and is invalid everywhere
  (`SlashLeadsNowhere`). After `chdir` to a path that ends in a backslash every path without a drive is
  (`ChdirHomedIff`, `BackslashLost`).
- A manager whose resources were overwritten adds at the least free slot only while its hint is not
  behind that slot (`OverwriteAddsLeastIff`, `OverwriteExample`).
- Reading through a descriptor that is behind the end of its file panics; another descriptor gets it
  there by a shorter write at the beginning (`ShortenedPanics`, `ReadPanicReached`), and nothing else
  does (`ShorterIff`, `RunReadable`).
- The branch of the C library's `free` that gives memory back is dead (`NeverGivenBack`).
- A `realloc` whose `malloc` fails copies to the null pointer (`NullCopyIff`, `NullCopyReached`).

The comment on `Process::terminate` says that children move to the parent; the code of `terminate` in
the kernel's process calls moves them to the terminator, and so does the model.

## Model

| member | source | states |
|---|---|---|
| FrameAllocator.BitsAfterSet | kernel/src/memory/frame_allocator.rs:173-176 | Setting one bit of one bitmap byte marks that frame used and changes no other frame |
| FrameAllocator.BitsAfterToggle | kernel/src/memory/frame_allocator.rs:168-171 | Flipping one bit of one bitmap byte toggles that frame and no other |
| FrameAllocator.CountByte | kernel/src/memory/frame_allocator.rs:182-187 | Counting ones byte by byte counts the used frames |
| FrameAllocator.CountAfterTake | kernel/src/memory/frame_allocator.rs:153-166 | Taking a free frame raises the number of used frames by one |
| FrameAllocator.CountFull | kernel/src/memory/frame_allocator.rs:182-187 | The count reaches the number of frames if and only if every frame is used |
| FrameAllocator.RegionAllocator.AllocateFrame | kernel/src/memory/frame_allocator.rs:153-166 | Hands out the least free frame and marks exactly it; nothing exactly when all frames are used |
| FrameAllocator.RegionAllocator.SetUnused | kernel/src/memory/frame_allocator.rs:168-171 | Toggles exactly the bit of the frame that holds the address |
| FrameAllocator.RegionAllocator.SetUsed | kernel/src/memory/frame_allocator.rs:173-176 | Sets exactly the bit of the frame that holds the address |
| FrameAllocator.RegionAllocator.SetUsedFrom | kernel/src/memory/frame_allocator.rs:124-130 | Marks the frames a range needs, rounded up, and no other |
| FrameAllocator.RegionAllocator.SetUnusedFrom | kernel/src/memory/frame_allocator.rs:133-139 | Toggles the whole frames of a range, rounded down, and no other |
| FrameAllocator.RegionAllocator.DeallocateFrame | kernel/src/memory/frame_allocator.rs:178-180 | Toggles exactly the bit of the frame |
| FrameAllocator.RegionAllocator.MappedFrames | kernel/src/memory/frame_allocator.rs:182-187 | The number of used frames less the unusable ones |
| EntryBits.PackExactIff | kernel/src/memory/paging.rs:64-83 | Flags and address are recovered from an entry word if and only if the address is that of a frame below 2^52 |
| EntryBits.EntryRoundTrip | kernel/src/memory/paging.rs:74-80 | A word made from flags and a frame stands for exactly the table entry with that flag set and that frame |
| EntryBits.WordRoundTripIff | kernel/src/memory/paging.rs:64-80 | A word is made again from the flags and the frame it stands for if and only if none of its other bits is set |
| EntryBits.ZeroWordIff | kernel/src/memory/paging.rs:124-145 | A cleared word is the entry without flags for frame 0, and no other entry is stored as zero |
| Paging.EntryReady | kernel/src/memory/paging.rs:191-217 | The table behind an entry, found or newly made and cleared, is again a tree of used frames apart from its parent |
| Paging.EntryTranslates | kernel/src/memory/paging.rs:191-217 | A table put in place translates nothing; one that was there translates as before |
| Paging.MapPathGrows | kernel/src/memory/paging.rs:191-259 | Mapping at any level keeps a tree of used, unshared frames; it grows by exactly the frames taken and writes no table outside it |
| Paging.MapPathTranslates | kernel/src/memory/paging.rs:191-272 | At any level: the mapped path gets its frame, every other path translates as before, and a failed mapping changes no translation |
| Paging.SiblingTranslates | kernel/src/memory/paging.rs:241-272 | Paths through other entries of the same table translate as before |
| AddressSpace.SplitAt | kernel/src/memory/mod.rs:15-35 | The four indices are the digits of the page number to the base 512, the highest first |
| AddressSpace.TranslateInjective | kernel/src/memory/mod.rs:15-35 | Two addresses have the same four indices if and only if they lie in the same page of the 48-bit space |
| AddressSpace.PagePaths | kernel/src/memory/mod.rs:15-35 | Distinct pages have distinct index paths; the lower half is the top indices below 256 |
| AddressSpace.MapToRefines | kernel/src/memory/paging.rs:241-272 | `map_to` with PRESENT is an update of the flat page-to-frame map; on failure the flat map is unchanged |
| AddressSpace.FailsOnlyWhenFull | kernel/src/memory/paging.rs:191-259 | `map_to` fails only when every frame is in use |
| AddressSpace.SucceedsIff | kernel/src/memory/paging.rs:191-259 | `map_to` succeeds if and only if the free frames cover the tables that the path lacks |
| AddressSpace.StaysUnmapped | kernel/src/memory/paging.rs:241-259 | Without PRESENT no entry of any table becomes mapped |
| AddressSpace.LostWithoutPresent | kernel/src/memory/paging.rs:191-259 | Without PRESENT the flat map loses every page under the same entry of the topmost table and nothing else |
| AddressSpace.MapToNeedsPresent | kernel/src/memory/paging.rs:234-272 | A successful `map_to` updates the flat page-to-frame map at its page, and only there, if and only if PRESENT was among the flags |
| AddressSpace.ReleaseExact | kernel/src/memory/paging.rs:88-150 | Freeing a tree clears the bit of each frame it reaches exactly once and no other bit |
| AddressSpace.ReleaseTwice | kernel/src/memory/paging.rs:88-150 | Freeing flips bits, whatever they are, so freeing the same tables twice marks everything in use again |
| AddressSpace.FreeReachesAll | kernel/src/memory/paging.rs:139-150 | `free` reaches the whole tree if and only if no entry at or above 256 is used below the root |
| AddressSpace.LowOnlyAfterMap | kernel/src/memory/paging.rs:241-259 | Whatever becomes of a mapping, the tree stays below index 256 if and only if it was and the part of the path that has entries afterwards is |
| AddressSpace.LeafIsNoTable | kernel/src/memory/paging.rs:241-272 | A frame mapped in an address space is none of its tables |
| AddressSpace.RemapSwaps | kernel/src/memory/paging.rs:241-259 | Mapping a page that is mapped succeeds without taking a frame: the tree loses the old frame, which stays in use, and gets the new one |
| AddressSpace.RemapTranslates | kernel/src/memory/paging.rs:241-272 | It changes the translation of that page and of no other |
| AddressSpace.RemapLow | kernel/src/memory/paging.rs:241-259 | It keeps the shape of the tree |
| Lifetime.RootKept | kernel/src/memory/paging.rs:282-292 | A new root owns one frame, translates nothing in the lower half and shares the higher half |
| Lifetime.TakeKept | kernel/src/memory/frame_allocator.rs:153-166 | Taking a frame keeps the books: frames in use are those from the start, those of the address space and those taken but not mapped yet, all apart |
| Lifetime.MapAccounted | kernel/src/memory/paging.rs:191-259 | Mapping any frame that was taken before at a new page keeps the books |
| Lifetime.MapServes | kernel/src/memory/paging.rs:241-272 | The lower-half pages that translate are exactly those mapped so far |
| Lifetime.RemapKept | kernel/src/memory/paging.rs:241-259 | Mapping a page again keeps books and translations, with its old frame among those that are not mapped |
| Lifetime.FailKept | kernel/src/memory/paging.rs:191-259 | A mapping that fails for lack of frames keeps books and translations, with the tables it made in the address space |
| Lifetime.StoreKept | kernel/src/threading/mod.rs:50-55 | Writing contents into frames that were taken or mapped changes no translation and no book |
| Lifetime.StepKept | kernel/src/memory/paging.rs:191-292 | Every step of an address space, failed and repeated mappings included, keeps books, translations and the tables of everybody else |
| Lifetime.RunKept | kernel/src/memory/paging.rs:191-292 | So does every run, in whatever order frames are taken, filled and mapped at lower-half pages |
| Lifetime.RunLow | kernel/src/memory/paging.rs:139-150 | After any run the tree is below index 256 if and only if every page is and so is what failed mappings left |
| Lifetime.LifeConserves | kernel/src/memory/paging.rs:88-292 | Create, take, map in any order with any outcome, free: the bitmap is as before if and only if every frame taken is mapped, every index of every page is below 256 and so is what failed mappings left; nothing in use before is released or written |
| Lifetime.OnePageLeaks | kernel/src/memory/paging.rs:139-150 | With five free frames an address space with the one page at 0x100000 can be made, and freeing it loses frames |
| Lifetime.RemapLeaks | kernel/src/memory/paging.rs:241-259 | After a page was mapped again, freeing does not give the bitmap back |
| PageTables.PhysicalMemory.Zeroize | kernel/src/memory/paging.rs:124-128 | Clears the whole table and no other |
| PageTables.PhysicalMemory.AllocateFrame | kernel/src/memory/frame_allocator.rs:197-199 | The least free frame, marked used |
| PageTables.PhysicalMemory.MapEntryAt | kernel/src/memory/paging.rs:191-217 | The table behind the entry, taking and clearing the least free frame when there is none; the entry gets the flags; no change when no frame is left |
| PageTables.PhysicalMemory.MapPage | kernel/src/memory/paging.rs:241-259 | The leaf entry and the missing tables are written exactly as the flat-map refinement needs; a failure leaves the tables made so far |
| PageTables.PhysicalMemory.GetFrame | kernel/src/memory/paging.rs:262-272 | The frame that the walk over four tables finds, if any |
| PageTables.PhysicalMemory.Free | kernel/src/memory/paging.rs:139-150 | The bitmap after releasing everything the table reaches through entries below 256, and the table |
| PageTables.PhysicalMemory.FreeEntry | kernel/src/memory/paging.rs:88-97 | The same for what one entry reaches |
| PageTables.PhysicalMemory.CopyHigherHalf | kernel/src/memory/paging.rs:131-136 | Entry by entry, the root shares the upper half of the active table, keeps its own lower half, and no other table changes |
| PageTables.PhysicalMemory.AllocatePml4 | kernel/src/memory/paging.rs:282-292 | A cleared root with the higher half of the active one, or no change |
| PageTables.PhysicalMemory.TakeFrames | kernel/src/threading/mod.rs:42-48 | The first loop of `alloc_map!`: distinct frames, none of them pending or held by the process before, as steps of the life of the address space; what the process had is undisturbed |
| PageTables.PhysicalMemory.ClearFrames | kernel/src/threading/mod.rs:50-55 | The second loop: every one of these frames holds only zeros afterwards and no other frame is written |
| PageTables.PhysicalMemory.MapFrames | kernel/src/threading/mod.rs:57-69 | The last loop: page k of the area leads to frame k, every entry on the way has PRESENT, WRITABLE and USER_ACCESSIBLE and no other flag, and no frame of the process is written; a failure means that every frame is in use, is a step of that life too, and leaves frames unmapped |
| PageTables.PhysicalMemory.AllocArea | kernel/src/threading/mod.rs:35-73 | `alloc_map!`: every page of the area leads to a frame of zeros that the process may read and write, all other pages lead where they led and frames hold what they held; exactly the area is added to the life of the address space and nothing stays pending, or it fails when every frame is in use, with that life still on the books |
| Contents.MapSpares | kernel/src/memory/paging.rs:191-259 | Whatever becomes of a mapping, a frame in use that is no table of the address space is not written |
| Contents.StepWalks | kernel/src/memory/paging.rs:191-272 | After a step of an address space a page leads to the frame just mapped there, or where it led before |
| Contents.StepSpares | kernel/src/memory/paging.rs:191-259 | Only storing into a frame of the process changes what it holds |
| Contents.ContentsKept | kernel/src/memory/paging.rs:191-292 | Over any run, a frame that was taken stays with the address space and holds what was stored there last, whatever is taken, mapped, mapped again or fails to be mapped |
| Rights.MapPathFlags | kernel/src/memory/paging.rs:191-259 | After a mapping, every entry that a path shares with the one mapped has its flags, and the others have those they had |
| Rights.MapToGrants | kernel/src/memory/paging.rs:241-259 | What the processor grants (section 4.6 of the Intel SDM): exactly the flags on the new page; on another page a right remains if and only if its own entries grant it and, when it shares an entry with the new page, so do the new flags |
| Rights.MapToServes | kernel/src/memory/paging.rs:241-259 | Mapping gives its page its frame and flags and leaves pages with the same flags as they are |
| Rights.RightsLost | kernel/src/memory/paging.rs:191-259 | Mapping a page that may not be written takes the right to write from every page under the same entry of the topmost table |
| Malloc.ChunkSize | libc/src/stdlib.zig:55 | The least multiple of 16 that is at least the size and not 0 |
| Malloc.FirstFit | libc/src/stdlib.zig:41-52 | The first free chunk that is large enough, or none if and only if none is |
| Malloc.CarveKeeps | libc/src/stdlib.zig:62-78 | Splitting for an allocation keeps the tiling in multiples of 16, hands out a chunk of the size asked for and less than 32 bytes more, and takes exactly its span from the free bytes |
| Malloc.CarveChunks | libc/src/stdlib.zig:62-78 | Besides the chunk handed out, the chunks in use are the same |
| Malloc.SourceKeeps | libc/src/stdlib.zig:54-60 | Taking from the chain or growing it at the break keeps the tiling and the chunks in use |
| Malloc.MergePassTiles | libc/src/stdlib.zig:90-104 | The chain after the merge pass still tiles the heap |
| Malloc.MergePassConserves | libc/src/stdlib.zig:90-104 | The merge pass moves and resizes no chunk in use and keeps the number of free bytes |
| Malloc.FreedKeeps | libc/src/stdlib.zig:106-121 | Freeing a live pointer keeps the tiling |
| Malloc.FreedChunks | libc/src/stdlib.zig:106-121 | Besides the chunk given back, the chunks in use are the same |
| Malloc.StepInv | libc/src/stdlib.zig:27-142 | Every `malloc`, `free`, `realloc` and write keeps the heap tiled from base to break with true headers |
| Malloc.StepKeeps | libc/src/stdlib.zig:27-142 | A step keeps place, size and contents of every chunk it was not asked to change |
| Malloc.MallocDelivers | libc/src/stdlib.zig:54-78 | A pointer from `malloc` is 16-aligned, was not live and names a chunk of the size rounded up to 16 and less than 32 bytes more |
| Malloc.ReallocDelivers | libc/src/stdlib.zig:123-142 | `realloc` gives back the pointer of a chunk that is large enough, or delivers such a new chunk; it starts with all the bytes of the old one |
| Malloc.StepDelivers | libc/src/stdlib.zig:54-142 | The same bounds for every step that hands out a pointer |
| Malloc.MallocGrowsIff | libc/src/stdlib.zig:27-64 | `malloc` fails if and only if no free chunk is large enough and the break cannot move; it moves the break, by exactly the chunk and its header, if and only if none is and it can |
| Malloc.MallocTakesFirst | libc/src/stdlib.zig:41-52 | The chunk is cut from the front of the first free one that is large enough, and every other chunk is as it was |
| Malloc.MallocBytes | libc/src/stdlib.zig:54-78 | Free bytes fall by the span handed out, less what the break moved |
| Malloc.FreeFrees | libc/src/stdlib.zig:106-121 | After `free` the pointer is not live, the free bytes grew by exactly its span, and all other chunks in use are as they were |
| Malloc.FreeJoins | libc/src/stdlib.zig:90-121 | `free` marks the chunk and then joins the free chunks at the front two by two |
| Malloc.MergePassPairs | libc/src/stdlib.zig:90-104 | The merge pass joins free chunks two by two up to the first chunk in use that is not the first of all, and changes nothing behind it |
| Malloc.ReallocDecides | libc/src/stdlib.zig:123-142 | `realloc` frees for size 0; it gives the pointer back if and only if its chunk is large enough, and then nothing changes; otherwise the old pointer is live afterwards if and only if the copy went to the null pointer |
| Malloc.RunTiles | libc/src/stdlib.zig:27-142 | Over any run the chunks tile the heap up to the break |
| Malloc.RunKeeps | libc/src/stdlib.zig:27-142 | Over any run a chunk nobody frees, reallocates or writes keeps place, size and contents |
| Malloc.PayloadsApart | libc/src/stdlib.zig:10-13 | Payloads of different chunks are disjoint, 16-aligned and inside the heap |
| Malloc.NeverGivenBack | libc/src/stdlib.zig:113-118 | The give-back branch of `free` is never taken |
| Malloc.NullCopyIff | libc/src/stdlib.zig:123-139 | `realloc` copies to the null pointer if and only if the chunk is too small, no free chunk fits after merging and the break cannot move |
| Malloc.NullCopyReached | libc/src/stdlib.zig:123-139 | Taking all of the first heap and asking for one byte more gets there |
| Stdlib.Heap.Sbrk | kernel/src/threading/processes.rs:96-103 | Growth only: the break moves by the amount, old memory is kept and new memory is there |
| Stdlib.Heap.AddFree | libc/src/stdlib.zig:27-34 | Appends one free chunk at the break, or changes nothing |
| Stdlib.Heap.Init | libc/src/stdlib.zig:36-38 | The head is the one chunk of 4096 bytes, or null |
| Stdlib.Heap.FindFree | libc/src/stdlib.zig:41-52 | The walk by address finds the first fit |
| Stdlib.Heap.MallocChunk | libc/src/stdlib.zig:54-78 | First fit or growth, split when the rest can hold a chunk, as the specification has it: less than 32 bytes more than asked for; all other headers and all chunks in use are untouched |
| Stdlib.Heap.AntiFragmentation | libc/src/stdlib.zig:90-104 | Terminates, standing on a prefix of the original chunk addresses in order; the live headers become the merged chain although stale headers are written; chunks in use keep their contents |
| Stdlib.Heap.MergeAt | libc/src/stdlib.zig:92-103 | Each turn moves from one chunk of the old chain to the next, also through an absorbed header, or stops before a chunk in use or the break |
| Stdlib.Heap.FreeChunk | libc/src/stdlib.zig:106-121 | The chunk becomes free and the merge pass runs; null does nothing; the give-back branch is unreachable |
| Stdlib.Heap.ReallocChunk | libc/src/stdlib.zig:123-142 | Size 0 frees, a large enough chunk is returned as it is, otherwise the bytes move; a failed `malloc` copies to null |
| Stdlib.Heap.Move | libc/src/stdlib.zig:130-139 | The merge, allocate, copy and free of a growing `realloc` |
| Stdlib.Heap.Copy | libc/src/stdlib.zig:135 | Every granule is copied and nothing outside the target changes |
| Buddy.AlignToPowerOf2 | kernel/src/memory/buddy_allocator.rs:70-76 | The least power of two not below the size |
| Buddy.ActualSizeTight | kernel/src/memory/buddy_allocator.rs:92-94 | The block size is less than twice payload and header together |
| Buddy.SplitToKeeps | kernel/src/memory/buddy_allocator.rs:52-60 | Splitting keeps the tiling and powers of two, and the left block its place |
| Buddy.SplitToExact | kernel/src/memory/buddy_allocator.rs:52-60 | A block that is large enough ends up exactly the size asked for |
| Buddy.SplitToChunks | kernel/src/memory/buddy_allocator.rs:52-60 | Splitting a free block keeps the blocks in use and the free bytes |
| Buddy.RightHalf | kernel/src/memory/buddy_allocator.rs:176-190 | The block returned by a split is the right half: free, of the same size, right behind the left one |
| Buddy.BestFit | kernel/src/memory/buddy_allocator.rs:192-221 | The last of the smallest free blocks that are large enough; none if and only if there is none |
| Buddy.FindDelivers | kernel/src/memory/buddy_allocator.rs:192-225 | A guarded search hands out a free block of exactly the size and keeps blocks in use and free bytes |
| Buddy.FindSoundIff | kernel/src/memory/buddy_allocator.rs:192-225 | A found block is sound if and only if a one-block heap holds a free, large enough block |
| Buddy.LoneBlock | kernel/src/memory/buddy_allocator.rs:192-198 | A heap of one block hands out the right half of its last split, or the block itself, free or not |
| Buddy.TailAfterSplit | kernel/src/memory/buddy_allocator.rs:176-190 | The tail is still the last block after a split if and only if another block was split or the last one was divided at most once |
| Buddy.AllocGrowsIff | kernel/src/memory/buddy_allocator.rs:257-276 | A safe allocation fails if and only if no block fits, also after coalescing, and the heap cannot grow; it grows the heap, by exactly the block, if and only if none fits and it can |
| Buddy.AllocBytes | kernel/src/memory/buddy_allocator.rs:257-276 | Free bytes fall by exactly the block handed out, unless the heap grew by it |
| Buddy.AllocLeavesOthers | kernel/src/memory/buddy_allocator.rs:257-276 | A request that some block meets is cut from a smallest such block, and every other block is as it was |
| Buddy.DeallocFrees | kernel/src/memory/buddy_allocator.rs:278-282 | After giving back the pointer is not live, no two free neighbours have equal size, free bytes grew by exactly the block, and all other blocks in use are as they were |
| Buddy.GivenBackFits | kernel/src/memory/buddy_allocator.rs:257-282 | After a block was given back a free block of at least its size is there, so the next such request needs no growth |
| Buddy.PassSettles | kernel/src/memory/buddy_allocator.rs:229-250 | A pass that merges nothing leaves no free equal neighbours |
| Buddy.PassConserves | kernel/src/memory/buddy_allocator.rs:229-250 | A pass keeps the blocks in use and the free bytes |
| Buddy.FullSettles | kernel/src/memory/buddy_allocator.rs:253-255 | Full coalescing ends, with no two free neighbours of equal size |
| Buddy.FullKeeps | kernel/src/memory/buddy_allocator.rs:253-255 | Full coalescing keeps tiling, powers of two, blocks in use and free bytes |
| Buddy.ChooseNone | kernel/src/memory/buddy_allocator.rs:257-276 | Nothing is handed out only when no block fits, before and after coalescing, and the heap cannot grow |
| Buddy.AllocSoundIff | kernel/src/memory/buddy_allocator.rs:257-276 | The block handed out is large enough and was unused if and only if neither search meets an unguarded one-block heap |
| Buddy.SameBlockTwice | kernel/src/memory/buddy_allocator.rs:192-198 | Two requests of 10,000,000 bytes on a fresh 16 MiB heap get the same block |
| Buddy.StepInv | kernel/src/memory/buddy_allocator.rs:38-282 | Every safe allocation, release and write keeps the tiling with powers of two above the header size |
| Buddy.StepKeeps | kernel/src/memory/buddy_allocator.rs:38-282 | A step keeps place, size and contents of every block it was not asked to change |
| Buddy.AllocDelivers | kernel/src/memory/buddy_allocator.rs:257-276 | A pointer is 16-aligned, was not live, and its block holds the payload and is below twice payload and header |
| Buddy.RunTiles | kernel/src/memory/buddy_allocator.rs:38-282 | Over any run the blocks tile the heap |
| Buddy.RunKeeps | kernel/src/memory/buddy_allocator.rs:38-282 | Over any run a block nobody releases or writes keeps place, size and contents |
| Buddy.PayloadsApart | kernel/src/memory/buddy_allocator.rs:20-35 | Payloads of different blocks are disjoint, 16-aligned and inside the heap |
| Buddy.SmallBlockGuards | kernel/src/memory/buddy_allocator.rs:192-198 | A block in use that is smaller than the heap makes every allocation safe |
| Buddy.PoliteRunIsRun | kernel/src/memory/buddy_allocator.rs:38-282 | So a run in which one such block is held is legal throughout, whatever is asked for |
| HeapGrowth.IterPage.Next | kernel/src/memory/paging.rs:44-56 | Yields one of the pages ahead and leaves exactly the others |
| HeapGrowth.MapVisited | kernel/src/memory/buddy_allocator.rs:116-131 | The loop succeeds if and only if the frames suffice for the visited pages that are not mapped, and then maps exactly those |
| HeapGrowth.GrowthMappedIff | kernel/src/memory/buddy_allocator.rs:116-136 | The new block is on mapped pages if and only if the new end is a page boundary or its page was mapped |
| HeapGrowth.GrowthAppends | kernel/src/memory/buddy_allocator.rs:257-276 | An allocation that grows the heap hands out exactly the block behind its old end |
| HeapGrowth.AllocMappedIff | kernel/src/memory/buddy_allocator.rs:116-136 | After an allocation the whole heap is on mapped pages if and only if it did not grow or grew safely |
| HeapGrowth.SmallGrowthFaults | kernel/src/memory/buddy_allocator.rs:116-136 | A block smaller than a page behind a page-aligned heap: no page is visited and its header is on an unmapped page |
| HeapGrowth.SmallGrowthReached | kernel/src/memory/buddy_allocator.rs:116-136 | Two requests of 8,000,000 bytes and one of 16 on a fresh 16 MiB heap get there |
| HeapGrowth.RunMapped | kernel/src/memory/buddy_allocator.rs:116-136 | Over any run that grows the heap by a page or more at a time, from a page-aligned end, every block is on mapped pages |
| BuddyAllocator.AlignDownToPowerOf2 | kernel/src/memory/buddy_allocator.rs:78-89 | The largest power of two not above the size |
| BuddyAllocator.Allocator.Init | kernel/src/memory/buddy_allocator.rs:138-162 | One free block, 16-aligned, of more than half the memory given |
| BuddyAllocator.Allocator.AddFree | kernel/src/memory/buddy_allocator.rs:104-114 | Appends one free block at the end of the heap |
| BuddyAllocator.Allocator.ExpandHeapBy | kernel/src/memory/buddy_allocator.rs:116-136 | Grows by one free block if and only if the frames suffice, with the visited pages mapped; otherwise the heap is unchanged |
| BuddyAllocator.Allocator.NextBlock | kernel/src/memory/buddy_allocator.rs:166-172 | The neighbour in the chain of blocks, or none exactly at the last block |
| BuddyAllocator.Allocator.Divide | kernel/src/memory/buddy_allocator.rs:38-47 | The block becomes two free halves and the right one is returned |
| BuddyAllocator.Allocator.SplitBlockToFit | kernel/src/memory/buddy_allocator.rs:52-60 | Halves until the half would be too small; the right half of the last division is returned |
| BuddyAllocator.Allocator.SplitToFit | kernel/src/memory/buddy_allocator.rs:176-190 | The same with `tail` moved when the tail was split |
| BuddyAllocator.Allocator.SearchBest | kernel/src/memory/buddy_allocator.rs:200-221 | The loop over neighbours finds the best fit |
| BuddyAllocator.Allocator.FindFreeBlock | kernel/src/memory/buddy_allocator.rs:192-225 | In place the search and split; nothing else changes, contents in use are kept when guarded |
| BuddyAllocator.Allocator.FindOrCoalesce | kernel/src/memory/buddy_allocator.rs:258-265 | The two searches with the coalescing between them; contents in use are kept whenever the call is safe |
| BuddyAllocator.Allocator.CoalesceBuddies | kernel/src/memory/buddy_allocator.rs:229-250 | One pass over the headers merges equal free neighbours; true if and only if it merged; contents in use are kept |
| BuddyAllocator.Allocator.CoalesceFull | kernel/src/memory/buddy_allocator.rs:253-255 | Passes until one merges nothing, which ends; contents in use are kept |
| BuddyAllocator.Allocator.AllocMut | kernel/src/memory/buddy_allocator.rs:257-276 | Search, coalesce, search again, grow; marks the block found, for any heap; contents in use are kept whenever the call is safe |
| BuddyAllocator.Allocator.DeallocMut | kernel/src/memory/buddy_allocator.rs:278-282 | Marks the block free and coalesces until no two free neighbours have equal size, as DeallocFrees promises; contents in use are kept |
| LinkedList.List.constructor | kernel/src/utils/alloc.rs:138-146 | The empty sequence without a cursor |
| LinkedList.List.Push | kernel/src/utils/alloc.rs:153-164 | Appends; the cursor is set when the list was empty |
| LinkedList.List.PushNode | kernel/src/utils/alloc.rs:166-179 | Links the node behind the last one in both directions |
| LinkedList.List.RemoveNode | kernel/src/utils/alloc.rs:181-208 | The sequence without that element; a cursor on another node stays, one on it steps back or is lost at the front |
| LinkedList.List.RemoveWhere | kernel/src/utils/alloc.rs:212-227 | Removes the first element that satisfies the condition, or nothing |
| LinkedList.List.NextWrap | kernel/src/utils/alloc.rs:242-253 | Moves the cursor on, wrapping around, and returns the element it left |
| LinkedList.List.ContinueNext | kernel/src/utils/alloc.rs:357-363 | Moves the cursor on, wrapping around, and returns the element it reaches |
| LinkedList.List.CloneNext | kernel/src/utils/alloc.rs:317-328 | The element the iterator stands on and the node behind, without touching the list |
| LinkedList.List.CloneIter | kernel/src/utils/alloc.rs:274-287 | Yields every element once, in order, and changes nothing |
| Processes.SwitchPicks | kernel/src/threading/mod.rs:140-154 | The first waiting process strictly behind the current one in cyclic order runs, none but it; the one it leaves waits, and nothing else changes |
| Processes.OnChainIff | kernel/src/threading/expose.rs:172-177 | Being on the chain is being reached by a sequence of parents that never meets process 0 |
| Processes.SpawnEffect | kernel/src/threading/expose.rs:111-125 | Spawning appends one living, waiting process under the next pid, child of the caller, changes nobody else, and returns |
| Processes.SpawnGoesOn | kernel/src/threading/expose.rs:109-125 | A `spawn` that began adds its process when the caller runs again, whatever others do in between |
| Processes.ExitDies | kernel/src/threading/expose.rs:23-31 | Exit makes the caller a zombie with its code that nobody killed, and changes nobody else |
| Processes.ExitIsFinal | kernel/src/threading/expose.rs:23-31 | After the exit of a living process, however the run goes on, it is dead with its code or gone, and causes no event but the timer's |
| Processes.KillEffect | kernel/src/threading/expose.rs:182-197 | The two passes together: the target dies with code 1 by the caller, its children become the caller's, nothing else about anybody changes, and the call returns |
| Processes.KillNeedsKinship | kernel/src/threading/expose.rs:201-211 | In any interleaving the caller gets to kill only itself, its child, or a process on whose ancestor walk it was met |
| Processes.WalkLeavesTrail | kernel/src/threading/expose.rs:172-177 | However interleaved, the ancestor walk goes from child to parent, each link as the table had it at that moment, towards one target |
| Processes.KillDecides | kernel/src/threading/expose.rs:201-211 | Undisturbed, `pkill` goes on to kill if and only if the target is there, not older than the caller, and is the caller, its child or its descendant |
| Processes.BootInv | kernel/src/threading/mod.rs:108-124 | The first table satisfies the invariant |
| Processes.StepInv | kernel/src/threading/expose.rs:23-214 | Every step but the one by which a caller removes itself keeps distinct pids below the next one, parents older than children, one running process and true exit codes |
| Processes.RemoveInv | kernel/src/threading/expose.rs:62-67 | Removing a zombie that is not the caller keeps the invariant and the current process |
| Processes.KillAdoptInv | kernel/src/threading/expose.rs:189-197 | Re-parenting keeps parents older than their children |
| Processes.RunInv | kernel/src/threading/expose.rs:23-214 | The invariant holds in every table that is reached before a caller removes itself; by NoSelfKillIntact in every table of a run without a self-kill |
| Processes.StepNext | kernel/src/threading/processes.rs:320-341 | Unborn, living, dead with its code, gone: no step skips a stage or goes back, and no pid is used again |
| Processes.RunLater | kernel/src/threading/processes.rs:320-341 | Over any run no process goes back to an earlier stage or changes its code |
| Processes.ExitsKept | kernel/src/threading/processes.rs:320-341 | The code of the first termination stays |
| Processes.FirstTermination | kernel/src/threading/processes.rs:320-341 | A recorded code was given by the first event that terminated the process |
| Processes.WaitReturns | kernel/src/threading/expose.rs:44-75 | `wait` returns the code of the first termination and removes that zombie and nothing else; the current process stays current unless it waited for itself |
| Processes.PollFindsIff | kernel/src/threading/expose.rs:44-59 | A look by `wait` goes on to the removal if and only if the pid is a zombie in the table, with the zombie's code |
| Processes.RemoveEffect | kernel/src/threading/expose.rs:62-67 | The removal returns, leaves the pid nowhere in the table, whoever removed it, and takes nobody else out |
| Processes.CallWaits | kernel/src/threading/expose.rs:23-214 | In any run a call stays where it is while its process does nothing, whatever others do |
| Processes.StepRemovesCurrentIff | kernel/src/threading/expose.rs:62-67 | A step takes the current process out of the table if and only if the caller found itself dead in `wait` |
| Processes.WaitRemovesCurrentIff | kernel/src/threading/expose.rs:44-75 | `wait` removes the current process if and only if it is a zombie that waits for itself; a living one that does removes nothing |
| Processes.StepSelfless | kernel/src/threading/expose.rs:23-214 | No step but a self-kill makes a call be about its own process or a killed process current |
| Processes.NoSelfKillIntact | kernel/src/arch/x86_64/syscalls.rs:30-53 | From boot, in any run in which nobody kills itself, no caller ever removes itself; the system calls offer no kill |
| Processes.CurrentStays | kernel/src/threading/expose.rs:44-75 | In such a run the invariant holds throughout and no step, `wait` included, removes the current process |
| Processes.SystemWaitReturns | kernel/src/threading/expose.rs:44-75 | In such a run `wait` returns the code of the first termination, removes that zombie and nothing else, and the current process stays current |
| Processes.SystemNoStarvation | kernel/src/threading/mod.rs:140-167 | In such a run a waiting process is picked within its distance plus the processes added since |
| Processes.RunReady | kernel/src/threading/mod.rs:140-167 | In every table before a caller removes itself, every living process but the current one is waiting, so none is lost by a switch |
| Processes.LivingRuns | kernel/src/threading/mod.rs:140-167 | So in any run without a self-kill every living process that is not current gets its turn within its distance plus the processes added since |
| Processes.CursorAfterSelfWait | kernel/src/utils/alloc.rs:181-208 | The cursor is then on the process before, or lost at the front of the list, and no step is possible any more |
| Processes.KernelIsLost | kernel/src/threading/expose.rs:44-214 | By the kernel function `pkill`, which no system call and no kernel code calls, a process that kills itself and then waits for itself leaves a living process and no current one |
| Processes.WalkDescends | kernel/src/threading/expose.rs:172-177 | Each step of the walk goes to an older process, whatever runs in between |
| Processes.WalkBounded | kernel/src/threading/expose.rs:172-177 | However interleaved, the walk takes no more steps than the pid it starts at |
| Processes.TickNearer | kernel/src/threading/mod.rs:140-154 | Each switch brings a waiting process nearer to its turn |
| Processes.NoStarvation | kernel/src/threading/mod.rs:140-167 | While a process waits, the switches number less than its distance plus the processes added since |
| Scheduler.Scheduler.Switch | kernel/src/threading/mod.rs:140-154 | On the linked list: ends, the process left waits, and table and cursor are those of the specification |
| Scheduler.Scheduler.RunNext | kernel/src/threading/mod.rs:146-151 | The loop ends at the first waiting process in cyclic order and marks it |
| Scheduler.Scheduler.AddProcess | kernel/src/threading/mod.rs:158-167 | Appends under the next pid, waiting, and counts on |
| Scheduler.Scheduler.Find | kernel/src/threading/mod.rs:171-183 | The first process that satisfies the condition |
| Scheduler.Scheduler.ForEach | kernel/src/threading/mod.rs:187-194 | Every process is changed once, in place; the cursor stays |
| Scheduler.Scheduler.Remove | kernel/src/threading/mod.rs:211-215 | Takes the first matching process out of table and list |
| Scheduler.Scheduler.ThreadExit | kernel/src/threading/expose.rs:23-31 | The current process becomes a zombie with the code, if it lives |
| Scheduler.Scheduler.TerminateProcess | kernel/src/threading/expose.rs:182-197 | The target becomes a zombie and its children go to the terminator |
| Scheduler.Scheduler.CanTerminate | kernel/src/threading/expose.rs:167-180 | The ancestor walk ends and is true exactly when the terminator is the process, its parent or on its chain before process 0 |
| Scheduler.Scheduler.Pkill | kernel/src/threading/expose.rs:201-214 | Succeeds exactly for processes that are not older and may be terminated, with the effect of a kill; otherwise an error and no change |
| Scheduler.Scheduler.Spawn | kernel/src/threading/expose.rs:111-125 | Appends a living child of the current process under the next pid |
| Scheduler.Scheduler.WaitOnce | kernel/src/threading/expose.rs:44-75 | One round of `wait`: yield, 0, or the code after removing the zombie |
| RamFs.NewInv | kernel/src/drivers/vfs/ramfs.rs:162-166 | The empty file system satisfies the invariant |
| RamFs.LocksDescend | kernel/src/drivers/vfs/ramfs.rs:51-135 | An operation that forwards through links takes its locks in strictly descending order, none twice |
| RamFs.Forwards | kernel/src/drivers/vfs/ramfs.rs:58-127 | A link answers `get`, `contains` and `insert` like the inode at the end of its chain |
| RamFs.LookupMeans | kernel/src/drivers/vfs/ramfs.rs:58-75 | What a lookup answers in terms of the directory at the end of the chain, errors included |
| RamFs.WalkSafe | kernel/src/drivers/vfs/mod.rs:244-284 | Path lookup never meets a missing inode |
| RamFs.WalkKept | kernel/src/drivers/vfs/mod.rs:244-284 | A path that resolves keeps resolving to the same inode when the file system grows |
| RamFs.InsertAdds | kernel/src/drivers/vfs/ramfs.rs:114-127 | An entry goes into the directory at the end of the chain, or the name exists |
| RamFs.GrownInv | kernel/src/drivers/vfs/ramfs.rs:232-257 | An entry and its new inodes keep the invariant and everything that was there |
| RamFs.CreateKeeps | kernel/src/drivers/vfs/ramfs.rs:232-242 | `create` keeps ids, entries, links and every old entry |
| RamFs.CreateDirKeeps | kernel/src/drivers/vfs/ramfs.rs:244-257 | `createdir` does too, and ".." links to the inode the path led to |
| RamFs.DotDotTransparent | kernel/src/drivers/vfs/ramfs.rs:58-75 | Looking a name up through ".." is looking it up in the parent |
| RamFs.WalkFromLink | kernel/src/drivers/vfs/mod.rs:258-283 | A whole path is walked from a link as from the inode it links to |
| RamFs.Overwrite | kernel/src/drivers/vfs/ramfs.rs:99-108 | Byte by byte: the buffer at its place, the old bytes elsewhere, zeros in a gap |
| RamFs.TruncateMeans | kernel/src/drivers/vfs/ramfs.rs:77-86 | Truncating leaves the first bytes of a file, as many as asked for, and nothing else changes; anything but a file is an error |
| RamFs.WriteKeeps | kernel/src/drivers/vfs/ramfs.rs:218-230 | A write succeeds exactly on a file; only that file changes, and a write at position 0 replaces its contents |
| RamFs.StepKeeps | kernel/src/drivers/vfs/ramfs.rs:218-257 | Every operation, failed ones included, keeps the invariant and everything that was there |
| RamFs.RunInv | kernel/src/drivers/vfs/ramfs.rs:218-257 | Every state of a run satisfies the invariant |
| RamFs.RunKeeps | kernel/src/drivers/vfs/ramfs.rs:218-257 | Over any run nothing that was there is ever taken away |
| RamFs.ShorterIff | kernel/src/drivers/vfs/ramfs.rs:218-230 | An operation makes a file shorter if and only if it writes at its beginning with fewer bytes than it holds |
| RamFs.RunReadable | kernel/src/drivers/vfs/ramfs.rs:200-216 | Over any run without such a write a descriptor that can be read stays readable |
| RamFs.ShortenedPanics | kernel/src/drivers/vfs/ramfs.rs:200-216 | After such a write reading panics for exactly the descriptors behind the new end |
| RamFs.RunResolves | kernel/src/drivers/vfs/mod.rs:244-284 | In every later state a path that resolved resolves to the same inode |
| RamFs.RunDotDot | kernel/src/drivers/vfs/ramfs.rs:244-257 | In every later state a whole path through ".." of a new directory leads where its rest leads from the inode the directory was made in, also through chains of links |
| RamFs.ReadAllDelivers | kernel/src/drivers/vfs/ramfs.rs:200-216 | Reads of any sizes deliver the file from the position on, without gap or overlap, up to its end |
| Ustar.SizeExact | kernel/src/utils/ustar.rs:59-63 | A POSIX.1 size field is read right if and only if no space ends it and it fits 32 bits |
| Ustar.SizeReadIff | kernel/src/utils/ustar.rs:59-63 | A field is read as n if and only if it is octal digits for n below 2^32, perhaps behind a plus sign, and then NULs |
| Ustar.NameReadIff | kernel/src/utils/ustar.rs:52-56 | The name that is read is the path name of POSIX.1 if and only if the prefix field is empty and no NUL is inside the name |
| Ustar.BlocksUp | kernel/src/utils/ustar.rs:81-88 | The rounded quotient is the number of 512-byte blocks the data needs |
| Ustar.TarArchiveIter.Next | kernel/src/utils/ustar.rs:99-106 | Yields the entry it stands on and moves to the next header, or ends at a block without the magic |
| Ustar.MemberParses | kernel/src/utils/ustar.rs:52-89 | A header laid out by the format is read as its name, kind and data |
| Ustar.ArchiveParses | kernel/src/utils/ustar.rs:80-106 | Iterating over a well-formed archive yields exactly its entries, in order |
| Ustar.MemberReadIff | kernel/src/utils/ustar.rs:82-104 | An entry is read if and only if the archive goes on for a header behind its data; otherwise the iterator leaves the archive's bytes |
| Unpack.SplitAtSeparator | kernel/src/drivers/vfs/mod.rs:245 | A path is split at either separator wherever it stands |
| Unpack.SplitJoin | kernel/src/drivers/vfs/mod.rs:245 | Joining components, dots and a leading empty one included, and splitting gives them back |
| Unpack.JoinedComponents | kernel/src/drivers/vfs/mod.rs:245-256 | Such a path is walked along just these components, without an empty first one and without a drive |
| Unpack.JoinedParent | kernel/src/drivers/vfs/mod.rs:289-300 | Its last component and the path before it are what creation works with |
| Unpack.WalkMirrors | kernel/src/drivers/vfs/mod.rs:258-283 | Every spelling of a path of the mirror, with dots anywhere, leads to its inode |
| Unpack.UncreatedMirrors | kernel/src/drivers/vfs/mod.rs:289-308 | A new path, however its parent is spelled, is created in the directory of its parent path |
| Unpack.AddedMirrors | kernel/src/drivers/vfs/ramfs.rs:232-257 | A creation adds exactly one path to those that resolve |
| Unpack.UnpackOne | kernel/src/drivers/vfs/mod.rs:480-496 | One turn keeps the invariant and everything that was there, also when it fails |
| Unpack.UnpackFile | kernel/src/drivers/vfs/mod.rs:484-490 | A regular entry is created, opened and written: its path leads to its data |
| Unpack.UnpackDirectory | kernel/src/drivers/vfs/mod.rs:492 | A directory entry, with or without trailing slash, makes its directory |
| Unpack.UnpackDelivers | kernel/src/drivers/vfs/mod.rs:479-498 | Unpacking distinct paths in any spelling, with or without a drive, parents first, succeeds; every file opens by any spelling of its path, with or without a drive, and reads of any sizes deliver its data |
| Unpack.UnpackStops | kernel/src/drivers/vfs/mod.rs:479-498 | An entry that cannot be unpacked ends it: what came before is there, nothing behind is looked at; an entry that is neither file nor directory is such |
| Lookup.DriveComponents | kernel/src/drivers/vfs/mod.rs:245-256 | Behind a drive a path is walked from the root, all its components; a drive alone is the root |
| Lookup.DriveResolves | kernel/src/drivers/vfs/mod.rs:245-284 | A path with a drive resolves like the path without it, unless that would itself seem to start with a drive |
| Lookup.WalkOne | kernel/src/drivers/vfs/mod.rs:258-281 | One component: "." and a last empty one stay, every other name is an entry of the directory or an error |
| Lookup.WalkConcat | kernel/src/drivers/vfs/mod.rs:258-281 | A path leads where its second part leads from where its first part leads |
| Lookup.WalkGap | kernel/src/drivers/vfs/mod.rs:259-265 | An empty component that is not the last makes the path invalid, once the part before it resolves |
| Lookup.EveryPath | kernel/src/drivers/vfs/mod.rs:290-300 | Every path to be created is a name, behind a parent or alone, and slashes at the end |
| Lookup.UncreatedMeans | kernel/src/drivers/vfs/mod.rs:289-308 | The directory of a path to be created is where its parent leads, and slashes at the end do not count |
| Lookup.CreateFailsIff | kernel/src/drivers/vfs/ramfs.rs:232-257 | `create` and `createdir` fail for the same reasons: the parent does not resolve, is no directory, or has the name |
| Lookup.CreateFindsIff | kernel/src/drivers/vfs/ramfs.rs:232-242 | A created file is found by its path if and only if the name is no dot, has no backslash, is not taken for a drive, and no slash is doubled |
| Lookup.CreateDirFindsIff | kernel/src/drivers/vfs/ramfs.rs:244-257 | The same for directories |
| Unpack.ReadPanicReached | kernel/src/drivers/vfs/ramfs.rs:200-230 | Two descriptors of one unpacked file are enough for a read to panic |
| FileSystem.RamFS.constructor | kernel/src/drivers/vfs/ramfs.rs:162-166 | The empty root directory |
| FileSystem.RamFS.ResolvePath | kernel/src/drivers/vfs/mod.rs:244-284 | The loop over the components, behind a leading empty one and a drive, computes the lookup that WalkOne, WalkConcat and DriveComponents describe |
| FileSystem.RamFS.ResolvePathUncreated | kernel/src/drivers/vfs/mod.rs:289-308 | The directory and name of a path to be created, or the error |
| FileSystem.RamFS.InsertInto | kernel/src/drivers/vfs/ramfs.rs:114-127 | The entry goes into the directory at the end of the links, or the error and no change |
| FileSystem.RamFS.CreateFile | kernel/src/drivers/vfs/ramfs.rs:232-242 | Entry and empty file under the next id; nothing changes on an error; everything that was there stays |
| FileSystem.RamFS.CreateDirectory | kernel/src/drivers/vfs/ramfs.rs:244-257 | Entry, directory and its ".." link under the next two ids; nothing changes on an error; everything that was there stays |
| FileSystem.RamFS.ReadFile | kernel/src/drivers/vfs/ramfs.rs:200-216 | Fills the front of the buffer, leaves the rest and advances the position |
| FileSystem.RamFS.WriteFile | kernel/src/drivers/vfs/ramfs.rs:218-230 | Only the file changes, truncated first at position 0, and the position advances; an error changes nothing |
| FileSystem.UnpackEntry | kernel/src/drivers/vfs/mod.rs:483-495 | One archive entry: create, open and write, or make the directory, or an error |
| FileSystem.UnpackTar | kernel/src/drivers/vfs/mod.rs:479-498 | The loop ends and does what reading and unpacking header after header does |
| FileSystem.UnpackFromEntries | kernel/src/drivers/vfs/mod.rs:479-498 | Reading and unpacking in turn is unpacking all entries of the archive |
| FileSystem.ArchiveRoundTrip | kernel/src/drivers/vfs/mod.rs:479-498 | Unpacking the bytes of a well-formed archive of distinct paths in any spelling, with or without a drive, parents first, into a new file system: every file opens by any spelling of its path, with or without a drive, and reads of any sizes deliver exactly its data |
| FileSystem.UnpackKeeps | kernel/src/drivers/vfs/mod.rs:479-498 | However it ends, unpacking keeps the invariant and all that was there |
| Vfs.RelativeMeans | kernel/src/drivers/vfs/mod.rs:415-428 | A path without a drive leads where its components lead from the working directory |
| Vfs.AbsoluteMeans | kernel/src/drivers/vfs/mod.rs:415-464 | A path with a drive leads where the rest leads from that root, whatever the working directory; an unknown drive is an error |
| Vfs.SlashLeadsNowhere | kernel/src/drivers/vfs/mod.rs:415-428 | A path that starts with a slash is invalid in every working directory |
| Vfs.ChdirHomedIff | kernel/src/threading/expose.rs:148-160 | After `chdir` the process is in the directory the path led to if and only if the full path does not end in a backslash |
| Vfs.BackslashLost | kernel/src/threading/expose.rs:148-160 | After a backslash at the end every path without a drive is invalid |
| Vfs.ChdirFails | kernel/src/drivers/vfs/mod.rs:468-477 | `chdir` fails if and only if the path does not resolve, with that error, or leads to no directory |
| Vfs.Session.ChangeDir | kernel/src/threading/expose.rs:148-160 | In place: the new working directory of the specification, or the error and no change |
| Vfs.StepHomed | kernel/src/drivers/vfs/mod.rs:521-542 | Whatever is created or written, the process stays where it is |
| Vfs.RunHomed | kernel/src/threading/expose.rs:148-165 | Over any run without such a backslash the process is in the directory that it went to last |
| Vfs.RunFinds | kernel/src/drivers/vfs/mod.rs:415-428 | So at every point of such a run a path without a drive leads where its components lead from the directory gone to last |
| Vfs.SlashForDirs | kernel/src/drivers/vfs/mod.rs:522-536 | A slash at the end makes no file, and makes the same directory as the path without it |
| Vfs.MadeHere | kernel/src/drivers/vfs/mod.rs:522-530 | A file made under a bare name is found under that name if and only if the name is no dot and has no backslash |
| Vfs.StartsHome | kernel/src/threading/expose.rs:105-108 | A process that does not inherit a working directory starts in the root of the drive "ram" |
| Vfs.BootFiles | kernel/src/drivers/vfs/mod.rs:33-48 | Every entry of a well-formed ramdisk is found on the drive "sys" by any spelling of its path, from any working directory, and a file reads as its data |
| UserMemory.ShortCopy | kernel/src/memory/mod.rs:94-123 | A copy inside one page does what it should |
| UserMemory.LongCopy | kernel/src/memory/mod.rs:94-123 | A copy of more than a page does too |
| UserMemory.CrossingCopy | kernel/src/memory/mod.rs:101-105 | A short copy over a page boundary does when the two frames lie side by side |
| UserMemory.CopySound | kernel/src/memory/mod.rs:94-123 | The process sees the object at its address and otherwise what it saw; foreign frames are untouched |
| UserMemory.AllLookedUp | kernel/src/memory/mod.rs:108 | A copy that does not stop the kernel found every page up to that of the byte behind the last |
| UserMemory.CrossingFails | kernel/src/memory/mod.rs:101-105 | Otherwise such a copy misses the second page |
| UserMemory.CopyWorksIff | kernel/src/memory/mod.rs:94-123 | Copying works for all contents if and only if those pages are mapped and the copy fits its first page, exceeds a page or meets consecutive frames |
| UserMemory.CrossingExample | kernel/src/memory/mod.rs:101-105 | Ten bytes at offset 4090 with swapped frames |
| Loader.MapPagesSees | kernel/src/utils/elf.rs:377-391 | Mapping a range gives zeros there and changes nothing elsewhere |
| Loader.PagesReady | kernel/src/utils/elf.rs:370-395 | The frame lookup inside the copy never fails |
| Loader.SegmentLoads | kernel/src/utils/elf.rs:351-395 | One segment: only a lack of frames stops it; its pages hold file bytes and zeros, all else is as before |
| Loader.LoadAllKeeps | kernel/src/utils/elf.rs:345-422 | Loading changes nothing outside the pages of the segments and never stops the kernel |
| Loader.LoadAllDelivers | kernel/src/utils/elf.rs:345-422 | Afterwards every address holds what belongs there by the last LOAD segment its page is mapped for: a byte of the file or zero |
| Loader.LoadExecImage | kernel/src/utils/elf.rs:345-422 | For each LOAD segment whose memory no later segment maps a page of: `filez` bytes of the file at `vaddr`, zeros up to `memz` |
| Loader.BreakIsLast | kernel/src/utils/elf.rs:420-422 | The program break is the end of the last LOAD segment |
| LoadedTables.WalkInjective | kernel/src/memory/paging.rs:221-272 | In the tables of an address space two index paths to the same frame are the same path |
| LoadedTables.MappingInjective | kernel/src/memory/paging.rs:241-272 | No frame backs two lower-half pages, and each that backs one is in use |
| LoadedTables.MapFreshUpdates | kernel/src/memory/paging.rs:241-259 | Mapping a fresh frame updates one place of the page-to-frame map, at a new page or at one that was mapped |
| LoadedTables.MapRunKeeps | kernel/src/memory/paging.rs:191-292 | The books of an address space hold at every point of the loader's run |
| LoadedTables.MapRunIsRun | kernel/src/utils/elf.rs:377-391 | The loader, which maps each frame as soon as it has it, is one of the runs of an address space's life |
| LoadedTables.LostIff | kernel/src/utils/elf.rs:370-383 | Loading loses no frame if and only if no page is asked for twice |
| LoadedTables.LoadConserves | kernel/src/utils/elf.rs:370-383 | Loading pages and freeing gives the bitmap back if and only if no page is asked for twice and every index is below 256 |
| LoadedTables.FrameTaken | kernel/src/memory/frame_allocator.rs:153-166 | Every mapping takes a frame that was not in use and stays in use |
| LoadedTables.LoaderReady | kernel/src/utils/elf.rs:377-391 | At every point of a run the assumptions of the loader hold: injective, backed, the frames to come unused and distinct |
| LoadedTables.TablesLoad | kernel/src/utils/elf.rs:377-391 | Mapping consecutive pages on the four-level tables is what the loader does on the flat map, and leaves the allocator's answers for the segments to come |
| LoadedTables.TablesLoadAll | kernel/src/utils/elf.rs:345-422 | A whole file: the loader ends with the page-to-frame map that the four-level tables stand for |
| LoadedTables.FileOnTables | kernel/src/utils/elf.rs:345-422 | After loading a file every address of every LOAD segment leads through the four-level tables to the file's byte, or to zero behind it |
| LoadedTables.DistinctIff | kernel/src/utils/elf.rs:370-377 | No page is asked for twice if and only if no page, the one behind each segment included, is mapped for two segments |
| LoadedTables.FileConserves | kernel/src/utils/elf.rs:345-422 | Loading a file and freeing gives the bitmap back if and only if no page is mapped for two segments and every index is below 256 |
| LoadedTables.AdjacentSegments | kernel/src/utils/elf.rs:371 | A segment that ends at a page boundary right before the next one is loadable with it and shares a page with it |
| LoadedTables.MapRunExists | kernel/src/memory/paging.rs:191-292 | Requests for lower-half pages are all served whenever one frame for the root and four for each of them are free |
| LoadedTables.FileLoads | kernel/src/utils/elf.rs:345-422 | So a loadable file is loaded whenever enough frames are free, and then the whole image is there through the four-level tables |
| LoadedTables.SmallFileLoads | kernel/src/utils/elf.rs:345-422 | Nine free frames are enough for a program of two one-page segments |
| LoadedTables.TablesHoldArea | kernel/src/threading/mod.rs:80-83 | In every address space that holds the argument area its pages lead through the tables to distinct frames of the memory |
| LoadedTables.ArgvOnTables | kernel/src/threading/processes.rs:199-243 | There the block is written, and a program takes its whole argv in order, through the four-level tables |
| Argv.Word8 | kernel/src/threading/processes.rs:205-227 | Eight little-endian bytes are read back as the number |
| Argv.WriteAllCopies | kernel/src/threading/processes.rs:199-232 | Sound copies side by side put their concatenation in place |
| Argv.StringHeld | kernel/src/threading/processes.rs:210-221 | Length and bytes of argument k are at its address, and a NUL behind them |
| Argv.PointerHeld | kernel/src/threading/processes.rs:223-232 | The k-th pointer is the address where the length of argument k was written |
| Argv.NthReads | libc/src/sys/root.zig:28-36 | `nth` on the block reads argument k |
| Argv.ArgvRoundTrip | kernel/src/threading/processes.rs:199-243 | For every argv whose block ends inside the area and whose copies are sound, `nth(k)` is argument k, and nothing from argc on |
| Argv.ArgvTerminated | kernel/src/threading/processes.rs:199-232 | The count is in front, and the address in pointer k leads to argument k followed by a NUL |
| Argv.TakeArgs | bin/src/ls.zig:12 | The loop over `next` takes the arguments from where the iterator stands up to the first that is none |
| Argv.ArgvInOrder | libc/src/sys/root.zig:18-36 | That loop takes the arguments the kernel wrote, all of them and in order, from any starting point |
| Argv.OnePageSound | kernel/src/threading/processes.rs:199-243 | Every copy is sound when the block fits one page |
| Argv.BlockEndLookedUp | kernel/src/memory/mod.rs:108 | Writing the block succeeds only if the page of the byte behind it is mapped |
| ProcessImage.Image.CopyToUserspace | kernel/src/memory/mod.rs:94-123 | The loop writes what the page-by-page specification says, or stops at a page that is not mapped |
| ProcessImage.Image.MapRange | kernel/src/utils/elf.rs:372-391 | Every page of the range gets the next fresh frame, zeroed, or a failure |
| ProcessImage.Image.LoadExec | kernel/src/utils/elf.rs:345-422 | Every LOAD segment of a loadable file has its image afterwards, and nothing but a lack of frames can fail; other files are refused |
| ProcessImage.Image.WriteArgv | kernel/src/threading/processes.rs:199-243 | Writes the whole block piece by piece and returns argc and the address of the pointers; nothing for an empty argv |
| ProcessImage.Image.WriteStrings | kernel/src/threading/processes.rs:210-223 | Lengths, bytes and NULs side by side, and where they end |
| ProcessImage.Image.WritePointers | kernel/src/threading/processes.rs:224-232 | The address of every length, side by side |
| Resources.AddLeastIff | kernel/src/threading/resources.rs:56-76 | Adding returns the least free index if and only if every slot below the hint is occupied |
| Resources.AddRefines | kernel/src/threading/resources.rs:56-76 | Adding fills the least free slot, no other, and keeps the hint good |
| Resources.AddOpens | kernel/src/threading/resources.rs:56-76 | On the map of open resources: the new one is opened at the least index that was not open |
| Resources.RemoveCloses | kernel/src/threading/resources.rs:79-89 | Removing closes exactly that index; only an index behind the table is an error |
| Resources.RemovedIsTaken | kernel/src/threading/resources.rs:56-89 | After a removal the next resource goes to the removed index, or to a lesser one that was free |
| Resources.CleanCloses | kernel/src/threading/resources.rs:93-104 | Cleaning leaves exactly the files open, at their indices |
| Resources.RunHolds | kernel/src/threading/resources.rs:56-104 | Over any run a resource stays open at its index until it is removed or, unless it is a file, until the manager is cleaned |
| Resources.OverwriteAddsLeastIff | kernel/src/threading/resources.rs:110-112 | After overwriting, adding takes the least free slot of the new resources if and only if the hint is not behind it, and panics if and only if the hint is behind all of them |
| Resources.ResourceManager.OverwriteResources | kernel/src/threading/resources.rs:110-112 | In place: the slots below the hint are all occupied afterwards if and only if the hint is not behind the least free slot of the new resources |
| Resources.OverwriteExample | kernel/src/threading/resources.rs:110-112 | A manager in use that is overwritten panics or skips a free slot |
| Resources.StepInv | kernel/src/threading/resources.rs:56-104 | Adding, removing and cleaning keep every slot below the hint occupied |
| Resources.RunAddsLeast | kernel/src/threading/resources.rs:56-104 | Over any run adding takes the least free slot and leaves the others |
| Resources.ClonedRunAddsLeast | kernel/src/threading/expose.rs:118-122 | So it does in a child that got a copy of its parent's resources |
| Resources.ResourceManager.AddResource | kernel/src/threading/resources.rs:56-76 | In place: the scan from the hint finds the least free slot |
| Resources.ResourceManager.RemoveResource | kernel/src/threading/resources.rs:79-89 | Frees the slot and lowers the hint, or an error and no change |
| Resources.ResourceManager.CleanUp | kernel/src/threading/resources.rs:93-104 | Frees all slots but those of files and resets the hint, whose old value is returned |

## Left out

- Assembly, interrupts, context save and restore, the cr3 register: hardware effects.
- Framebuffer, terminal, keyboard, serial port, ANSI parser: user interface.
- Device and proc file systems, directory iterators, syscall wrappers: plumbing that would add easy members.
- `unmap`: it releases the frame and leaves the entry in place, so no map can describe it.
- The boot scan that builds the frame bitmap: the model starts from any bitmap.
- The `PageAllocator`: bump allocation, simple next to the two heaps.
- Shrinking the program break: the only caller is the branch of `free` that is proved dead.
- ELF headers and symbols: raw casts; the loader starts from parsed program headers.
- Machine integers: addresses, sizes and counters are unbounded naturals, except where the source parses or packs a fixed width (`SizeOf`, `Bytes8`, entry words); overflow of a `usize` is not modelled.
- Strings are sequences of bytes written as characters; UTF-8 is not decoded, which agrees with the source because all separators are ASCII.
- Locks: an operation under a lock is one atomic step; what is proved of locks is their order in chains of hard links.
- Stdlib.Heap.Sbrk: takes whether the kernel has memory as a parameter and does not model the frames behind the break.
- Stdlib.Heap.Copy: works on 16-byte granules, the unit in which chunks are sized and headers are stored, not on single bytes.
- BuddyAllocator.Allocator.AllocMut: requires a nonempty layout as Rust's allocator interface does, and promises contents in use only for safe calls; AllocSoundIff says what happens otherwise. Layout alignments above 16 are not modelled, the source ignores them.
- BuddyAllocator.Allocator.ExpandHeapBy: takes the mapped pages and the number of pages that can still be mapped as parameters; the frames for page tables on the way are not counted apart.
- HeapGrowth.MapVisited: counts the frames that pages need, not those for page tables on the way.
- BuddyAllocator.Allocator.SplitToFit: models the `tail` field but nothing depends on it, since it may lag behind after coalescing.
- Processes.StepInv: leaves out the step by which a caller removes itself, after which the invariant is false; StepRemovesCurrentIff and CursorAfterSelfWait are about it. Process contexts, names, working directories and page tables are not part of a table entry; terminating a process frees its address space in Lifetime and cleans its table in Resources.
- Processes.RunInv: for runs up to the first step by which a caller removes itself, and so are the other results on runs of the process table; NoSelfKillIntact shows that this is every run in which nobody kills itself.
- Processes.KernelIsLost: a run through `pkill`, which nothing in the repository calls.
- Scheduler.Scheduler.Pkill: for a caller that is not interrupted between the locks it takes; interleaved calls are steps of their own in Processes.
- Scheduler.Scheduler.WaitOnce: joins the two locks that one round of `wait` takes, the lookup and the removal; they are steps of their own in Processes.
- LinkedList.List.RemoveNode: the unused `prev` field of the list is not modelled, and freeing the node's memory is not either.
- Ustar.TarArchiveIter.Next: leaving the archive's bytes is a fault; the checksum is not looked at.
- Ustar.ArchiveParses: for archives whose headers have an empty name prefix and sizes ended by NULs; NameReadIff and SizeExact say what happens otherwise.
- Unpack.UnpackDelivers: for names of plain components, apart from dots before the last one, a leading slash and a drive; names with ".." or a backslash are not covered.
- Vfs.Session.ChangeDir: all drives are file systems in memory; the drives for devices and processes are not part of this model, and mounting happens at the start only.
- Rights.MapToGrants: for entries as they are in memory; what a processor has cached of them is not modelled.
- Loader.SegmentLoads: works on the flat page-to-frame map, with the allocator's answers as a parameter; FileOnTables carries whole files over to the four-level tables. Page tables and user memory share the physical memory but are modelled side by side.
- Loader.LoadExecImage: for segments that fit their first page or exceed a page, since the frames of a new process need not be consecutive, and that no later segment overlays; CopyWorksIff and LoadAllDelivers are exact.
- Resources.ResourceManager.CleanUp: closing a file has no effect on a RamFS descriptor and is not modelled.
