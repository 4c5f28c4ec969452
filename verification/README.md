# Verified model of the Eron kernel cores

Dafny models of the parts of the Eron OS kernel that hold state over time, with proofs about all of
their runs. Each core comes as code in the form of the source (classes over arrays, loops, registers)
proved against specification functions, and theorems about those functions.

| part | files | source |
|---|---|---|
| heap allocator | `HeapBlocks.dfy`, `HeapModel.dfy`, `KernelHeap.dfy` | `src/kernel/mm.c` |
| process table and scheduler | `ProcTable.dfy` | `src/kernel/process.c` |
| context switch and trap return | `Cpu.dfy` | `src/boot/boot.S` |
| table and machine together | `KernelRuns.dfy` | `src/kernel/process.c`, `src/boot/boot.S` |
| page tables | `Paging.dfy` | `src/kernel/virtual_mm.c` |
| ELF loader | `Elf.dfy` | `src/kernel/elf.c` |
| file system | `Paths.dfy`, `VfsModel.dfy`, `Vfs.dfy` | `src/kernel/vfs.c` |
| keyboard | `Keyboard.dfy` | `src/kernel/teclado.c` |
| terminal | `Terminal.dfy` | `src/kernel/tty.c` |

`dafny verify dfyconfig.toml` checks everything.

## Reading the model

- `u32` is an integer below 2^32; `Add32` and `Sub32` wrap as `uint32_t` does. Memory is an array of
  words, word w at address 4 * w, except in the ELF loader, where it is the 2^32 bytes of the address
  space. A header's used flag is the low byte of its third word; the padding bytes keep their values.
- Heap: `HeapModel.Heap` is the list of blocks with the tracking table. `Canonical` is the centre:
  exact tiling and no two free neighbours make the layout a function of the live blocks, and the
  round trip, the order of frees and the return to the boot layout follow from it. `Untouched` says
  that a call writes no word of a live payload and none outside the heap; `MemNext` are the steps of
  calls and clients' stores on memory, which the methods of `Heap32` take.
- Processes: `ProcTable` models table steps, with `current_proc` as the number of its slot; `Cpu`
  models registers and stacks; `KernelRuns` joins them. In a run, the step `Compute` stands for any
  code of the running process, which may change anything but the kernel stacks and context pointers
  of READY slots. `schedule` is one step, since the gates clear the interrupt flag and `timer.c:21`
  schedules only out of ring 3. `Interrupted` is an interrupt taken in user mode; `Preempted` follows
  the interrupted process until it stands at the return to user mode again.
- Paging: `AllocMem`, `FreeMem` and `MapMem` say what the code does to the words of the physical
  address space, for any directory address and any results of `kmalloc`. `Space` is the map the
  tables stand for, and `Holds` says that memory holds it. `Walk` is the translation of section 4.3
  (32-bit paging) of the Intel SDM, volume 3A, written independently of the kernel's lookups.
- File system: a node's `hasData` says that its data pointer is set, and then to its own buffer.
  `Items` is the list of live nodes; `ListRun` runs the operations on such a list alone, with a count
  of creations. A dynamic node's reader is a name in the result of a read.
- Keyboard: the reader's four accesses are separate steps between which interrupts may fall.
- Terminal: `Screen` keeps every row ever shown; the 80 by 25 buffer is its last 25 rows.

## Where the code falls short of its documentation

- README.md:41 of the repository promises 8-byte alignment. With 12-byte headers payloads are 4-byte
  aligned; `PayloadAlignment` says exactly when they are 8-byte aligned.
- A request above 0xFFFFFFF8 bytes is granted an empty block (`HoldsRequestIff`).
- When 256 blocks are tracked, further pointers are handed out but can never be freed
  (`MallocExactIff`, `MallocFreeRoundTrip`, `DroppedPointerNeverFreed`); `FullTableExample` is a run
  from boot.
- A creation keeps pids distinct exactly if no slot in use holds `next_pid`
  (`CreationKeepsDistinctIff`, `DistinctAlongIff`). The wrap alone does no harm, but the creation
  after it repeats the kernel's pid 0 (`RepeatedPidExample`).
- `next_free_page` advances on failing calls too and may wrap (`PoolRespectedIff`); a run from boot
  then maps a frame outside the pool (`PoolLeftExample`).
- `kmalloc` does not align, although the page structures ask for it. The directory `vmm_init` gets is
  never page-aligned (`DirectoryNeverAligned`), and the processor agrees with the kernel's lookups on
  all memories exactly if it is (`ProcessorAgreesIff`). A new table keeps `vmm_alloc_page` within
  its own memory exactly if it is page-aligned (`OwnMemoryIff`); otherwise the entry may be stored
  in a word below it (`StrayWord`), and `FirstMapIff` says when the call still maps its page.
- A segment with `p_filesz` above `p_memsz`, or whose end wraps, passes the load-address check but may
  be written outside user space (`UserSpaceOnlyIff`); `AcceptedFileEscapes` gives an accepted file.
  It may also be overwritten by a later segment (`ImageKeptIff`, `LostImageExample`).
- `vfs_mkfile` with content of 4096 characters or more reports failure but leaves a node
  (`FailedMakeFileIff`); a path of 128 to 255 characters is accepted but cut, and then not found
  (`FoundAfterMakeIff`, `RenameOutcome`). `BootExamples` shows both.

## Model

| member | source | states |
|---|---|---|
| HeapBlocks.TilesOrder | src/kernel/mm.c:27-39 | headers in a tiled heap lie on word boundaries in address order and never overlap |
| HeapBlocks.Canonical | src/kernel/mm.c:82-128 | two layouts of one heap without neighbouring free blocks that have the same live blocks are the same list |
| HeapBlocks.EmptyHeapIsOneBlock | src/kernel/mm.c:116-128 | with nothing live, such a layout is the single free block of mm_init |
| HeapBlocks.CoalesceKeepsLayout | src/kernel/mm.c:96-114 | one coalescing pass keeps the tiling and the live blocks and leaves no two free neighbours |
| HeapBlocks.PlaceTiles | src/kernel/mm.c:82-94 | carving a block, whole or split, keeps the heap exactly filled |
| HeapBlocks.PlaceCompact | src/kernel/mm.c:82-94 | carving never creates two free neighbours |
| HeapBlocks.PlaceLive | src/kernel/mm.c:82-94 | carving adds exactly the handed-out block to the live ones |
| HeapBlocks.ReleaseKeepsLayout | src/kernel/mm.c:156-168 | freeing a block and coalescing keeps the layout and removes exactly that block from the live ones |
| HeapBlocks.MergeTiles | src/kernel/mm.c:107-109 | absorbing the next free header keeps the heap exactly filled |
| HeapBlocks.Conservation | src/kernel/mm.c:180-216 | used bytes, free bytes and 12 bytes a block make up the heap |
| HeapModel.InitInv | src/kernel/mm.c:116-128 | mm_init establishes the heap invariant |
| HeapModel.MallocEffect | src/kernel/mm.c:130-154 | a successful kmalloc keeps the invariant and makes one new block live, whose pointer it returns and offers to the table |
| HeapModel.MallocFailsIff | src/kernel/mm.c:130-154 | kmalloc returns null exactly for size 0 or when no free block holds the rounded size, and then changes nothing |
| HeapModel.FirstFitOutcome | src/kernel/mm.c:82-94 | kmalloc takes the lowest fitting free block, whole when at most 28 bytes would remain, else cut to the rounded size |
| HeapModel.HoldsRequestIff | src/kernel/mm.c:133 | the block holds the request exactly when size is at most 0xFFFFFFF8; above that ALIGN8 wraps to 0 |
| HeapModel.WrappedRequestExample | src/kernel/mm.c:133 | a fresh heap grants a request of 0xFFFFFFFF bytes with an empty block |
| HeapModel.PayloadAlignment | README.md:41 | payloads are 4-byte aligned; 8-byte aligned exactly when the chosen header is 4 off an 8-byte boundary, so never in a heap's first block |
| HeapModel.LivePayloadsDisjoint | src/kernel/mm.c:130-154 | live payloads are aligned, inside the heap and pairwise disjoint |
| HeapModel.FreeOutcome | src/kernel/mm.c:156-168 | kfree returns 1 exactly for tracked pointers; it then removes that pointer and that block and nothing else, and otherwise changes nothing |
| HeapModel.MallocFreeRoundTrip | src/kernel/mm.c:130-168 | kfree of a fresh pointer succeeds exactly if a tracking slot was free, and restores the earlier blocks and tracked pointers |
| HeapModel.FreeEachOutcome | src/kernel/mm.c:156-168 | a sequence of frees removes exactly the tracked pointers among its arguments |
| HeapModel.FreeOrderIrrelevant | src/kernel/mm.c:96-114 | freeing the same pointers in any order, with repetitions, ends in the same heap and table |
| HeapModel.FreeingEverything | src/kernel/mm.c:156-168 | freeing every tracked pointer in any order leaves the one free block of a fresh heap |
| HeapModel.CountIsCardinality | src/kernel/mm.c:52-61 | a tracking slot is free exactly when fewer than 256 pointers are tracked |
| HeapModel.TrackedAreLive | src/kernel/mm.c:143-145 | every tracked pointer is the payload of a used block |
| HeapModel.MallocExactIff | src/kernel/mm.c:52-61 | the table still holds exactly the live payloads after a kmalloc if and only if at most 256 blocks are live |
| HeapModel.FreeKeepsExact | src/kernel/mm.c:63-71 | kfree keeps table and heap in agreement |
| HeapModel.FreeAllFromOutcome | src/kernel/mm.c:170-178 | from any slot on, kfree_all clears the table, counts what it frees and keeps the invariant |
| HeapModel.FreeAllOutcome | src/kernel/mm.c:170-178 | kfree_all returns the number of tracked blocks and empties the table; the heap becomes one free block exactly if the table was exact |
| HeapModel.StepInv | src/kernel/mm.c:130-178 | every operation keeps the heap invariant |
| HeapModel.RunInv | src/kernel/mm.c:130-178 | every reachable heap is exactly tiled, without free neighbours, with a consistent table |
| HeapModel.LayoutDependsOnLiveBlocksOnly | src/kernel/mm.c:96-168 | two runs from boot with the same live blocks at the end have the same layout |
| HeapModel.RunExact | src/kernel/mm.c:52-71 | over a run with never more than 256 live blocks the table is exactly the used blocks |
| HeapModel.FreeAllRestoresBoot | src/kernel/mm.c:116-178 | after such a run kfree_all restores the layout of mm_init |
| HeapModel.DroppedPointerNeverFreed | src/kernel/mm.c:52-61 | a block whose pointer the full table dropped stays live over every later run |
| HeapModel.FullTableExample | src/kernel/mm.c:52-61 | from boot with the 1 MB heap, the 257th request of 8 bytes is granted but not tracked: kfree refuses its pointer, and its block stays live over every later run |
| HeapModel.StaysLiveIff | src/kernel/mm.c:130-178 | a live block stops being live exactly when its tracked pointer is passed to kfree or kfree_all runs |
| KernelHeap.HeadersDetermineBlocks | src/kernel/mm.c:27-39 | the headers in memory determine the list of blocks |
| KernelHeap.LocalWrite | src/kernel/mm.c:82-114 | a change inside one block leaves all other headers and all live payloads as they were |
| KernelHeap.SplitHeaders | src/kernel/mm.c:88-93 | after split_block's stores memory holds the headers of the split list and live payloads are untouched |
| KernelHeap.MergeHeaders | src/kernel/mm.c:107-109 | after the merging store memory holds the headers of the merged list and live payloads are untouched |
| KernelHeap.Heap32.AtBlock | src/kernel/mm.c:35-50 | in a well-formed heap every header passes is_block_valid, next_block leads to the following header, and the last block ends at heap_end |
| KernelHeap.Heap32.TrackAdd | src/kernel/mm.c:52-61 | uses the first slot not in use, or drops the pointer |
| KernelHeap.Heap32.TrackRemove | src/kernel/mm.c:63-71 | clears the first slot in use for the pointer and says whether there was one |
| KernelHeap.Heap32.TrackValidate | src/kernel/mm.c:73-80 | says whether a slot is in use for the pointer |
| KernelHeap.Heap32.SplitBlock | src/kernel/mm.c:82-94 | the header stores split the block in place and touch no live payload |
| KernelHeap.Heap32.CoalesceFreeBlocks | src/kernel/mm.c:96-114 | the walk over headers performs one coalescing pass, terminates, and touches no live payload |
| KernelHeap.Heap32.MmInit | src/kernel/mm.c:116-128 | lays out one free block and clears the table |
| KernelHeap.Heap32.KMalloc | src/kernel/mm.c:130-154 | on memory words, does the allocation of the model and changes no word of a live payload or outside the heap |
| KernelHeap.Heap32.KFree | src/kernel/mm.c:156-168 | on memory words, does the model's free and changes no word of a payload that stays live |
| KernelHeap.Heap32.KFreeAll | src/kernel/mm.c:170-178 | on memory words, does the model's kfree_all and changes no word of a payload that stays live |
| KernelHeap.Heap32.ClientStore | src/kernel/mm.c:143-145 | a store into a live payload keeps the whole heap invariant |
| KernelHeap.Heap32.MmUsed | src/kernel/mm.c:180-195 | sums the used payload sizes, without wrap-around |
| KernelHeap.Heap32.MmFree | src/kernel/mm.c:197-212 | sums the free payload sizes, without wrap-around |
| KernelHeap.Heap32.MmTotal | src/kernel/mm.c:214-216 | equals used plus free plus 12 for each block but one |
| KernelHeap.StoredWordPersists | src/kernel/mm.c:130-178 | over every run of kmalloc, kfree, kfree_all and stores of all clients: a word a client stored in a payload it holds stays there until the block is freed or that client stores there again |
| ProcTable.ScheduleRank | src/kernel/process.c:111-143 | schedule picks the nearest READY slot; any other READY slot stays READY with a strictly smaller distance |
| ProcTable.YieldOutcome | src/kernel/process.c:100-145 | a yield changes nothing exactly when no slot is READY; otherwise the caller becomes READY, the nearest READY slot runs with its stack in esp0, the rest is unchanged |
| ProcTable.ExitFindsSuccessor | src/kernel/process.c:121-154 | exit does nothing for pid 0; any other process becomes a zombie and always finds a READY successor, so the fallback branch is not reached |
| ProcTable.CreateOutcome | src/kernel/process.c:36-98 | proc_create fails exactly on a bad entry or a full table, otherwise fills the lowest unused slot with the next pid; the returned int is the pid exactly below 2^31 |
| ProcTable.ParentRecordedIff | src/kernel/process.c:91-94 | the creator becomes the parent of the new process exactly if it is not the kernel or the slot had no parent left over |
| ProcTable.ParentsStayZero | src/kernel/shell.c:899 | over every run in which only the kernel slot creates processes, as the shell does, every parent stays 0 |
| ProcTable.SweptKeepsInv | src/kernel/kernel.c:207-211 | reaping zombies keeps the table invariant |
| ProcTable.WaitKeepsInv | src/kernel/shell.c:917-922 | a turn of the shell's wait, or its reap of the child, keeps the table invariant |
| ProcTable.StepKeepsInv | src/kernel/process.c:36-158 | every operation on the table keeps: one RUNNING slot, the current one; slot 0 READY or RUNNING with pid 0; esp0 the current kernel stack |
| ProcTable.RunKeepsInv | src/kernel/process.c:36-158 | the same over every run of any length |
| ProcTable.CreationKeepsPidsIff | src/kernel/process.c:52 | while all pids are below next_pid: the new pid is in no slot, pids stay distinct, and they stay below next_pid exactly if that does not wrap |
| ProcTable.CreationKeepsDistinctIff | src/kernel/process.c:52 | for any next_pid, a creation keeps the pids of slots in use distinct exactly if none of them is next_pid |
| ProcTable.DistinctAlongIff | src/kernel/process.c:36-158 | over every run, pids are distinct throughout exactly if every creation finds next_pid unused |
| ProcTable.RepeatedPidExample | src/kernel/process.c:52 | from boot, 2^32 - 1 rounds of starting and reaping a program leave pids distinct and next_pid 0, and the next creation repeats pid 0 |
| ProcTable.RunKeepsPids | src/kernel/process.c:36-158 | over every run whose successful creations do not wrap next_pid, pids stay distinct and 0 belongs to slot 0 |
| ProcTable.BootRuns | src/kernel/process.c:23-34 | both for runs from proc_init |
| ProcTable.WaitingStep | src/kernel/process.c:100-154 | seen from a READY slot: a scheduling step runs it or brings it nearer, any other step leaves it READY |
| ProcTable.BoundedWaiting | src/kernel/process.c:111-143 | over runs of any length, a READY slot runs after at most (k - cur) mod 16 calls of schedule, whatever else happens |
| ProcTable.Procs.ProcInit | src/kernel/process.c:23-34 | empties the table and the parents and makes slot 0 RUNNING and current |
| ProcTable.Procs.ProcCreate | src/kernel/process.c:36-98 | the slot search and the table updates of proc_create |
| ProcTable.Procs.Schedule | src/kernel/process.c:100-143 | the search loop and the updates of schedule, all branches |
| ProcTable.Procs.ProcExit | src/kernel/process.c:149-154 | marks the zombie and schedules, except for pid 0 |
| ProcTable.Procs.Sweep | src/kernel/kernel.c:207-211 | turns zombies in slots 1 to 15 into unused slots |
| Cpu.InterruptRoundTrip | src/boot/boot.S:150-170 | returning from an interrupt taken in user mode restores every register if the frame was left alone |
| Cpu.FrameReadBack | src/include/process.h:18-24 | the 19 words of a trap frame read back as the frame |
| Cpu.NewStackStartsProgram | src/boot/boot.S:72-97 | swtch and trapret on a fabricated stack consume context and frame exactly and enter ring 3 at the entry point with cleared registers and eflags 0x202 |
| Cpu.Machine.Swtch | src/boot/boot.S:72-85 | the instruction sequence saves four registers and the stack pointer and loads the other context |
| Cpu.Machine.IRet | src/boot/boot.S:97 | iret takes the stack from the frame exactly when the ring changes |
| Cpu.Machine.PopA | src/boot/boot.S:95 | popa restores seven registers and skips the stack pointer |
| Cpu.Machine.PushA | src/boot/boot.S:151 | pusha stores eight registers, with the stack pointer before the instruction |
| Cpu.Machine.TrapRet | src/boot/boot.S:90-97 | trapret loads the registers a trap frame stands for |
| Cpu.Machine.InterruptEntry | src/boot/boot.S:129-161 | an interrupt from user mode leaves the trap frame of the interrupted registers at the top of the kernel stack, its address below it as the argument, kernel segments, and all other registers as they were |
| KernelRuns.FabricateStack | src/kernel/process.c:56-89 | the stores of proc_create build context and trap frame at the top of the slot's kernel stack |
| KernelRuns.OwnedDisjoint | src/include/process.h:30-40 | no word of a kernel stack or saved context pointer belongs to two slots |
| KernelRuns.BootKInv | src/kernel/process.c:23-34 | the state after proc_init satisfies the combined invariant |
| KernelRuns.Esp0IsStackEnd | src/kernel/process.c:140-141 | while a created process runs, esp0 is the end of its kernel stack |
| KernelRuns.SwtchIsLocal | src/boot/boot.S:72-85 | swtch writes only the outgoing process's own stack and context pointer |
| KernelRuns.SwtchParks | src/boot/boot.S:75-79 | swtch leaves the outgoing registers and return address where the saved context pointer points |
| KernelRuns.StepSparesSleeper | src/kernel/process.c:100-145 | no step changes the words a waiting slot resumes from |
| KernelRuns.StepKeepsKInv | src/kernel/process.c:36-158 | every step keeps the invariant that each READY slot has a well-formed saved context on its own stack |
| KernelRuns.RunKeepsKInv | src/kernel/process.c:36-158 | the same over every run of any length |
| KernelRuns.DispatchCanHappen | src/kernel/process.c:133-144 | from every reachable state with a slot to switch to, the running process can bring about the dispatch within its own stack |
| KernelRuns.Asleep | src/kernel/process.c:133-144 | the words a slot resumes from are unchanged for as long as it waits |
| KernelRuns.Resume | src/boot/boot.S:71-85 | over every run, a process switched back in has the edi, esi, ebx, ebp and return address it had when switched out, and its stack pointer just above that address |
| KernelRuns.FirstDispatch | src/kernel/process.c:56-89 | over every run, the first dispatch of a created process comes up in trapret and enters ring 3 at its entry point on its own user stack |
| KernelRuns.InterruptIsStep | src/boot/boot.S:150-161 | being interrupted changes nothing a waiting slot resumes from |
| KernelRuns.FrameKept | src/boot/boot.S:150-170 | through any number of switches away and back, the trap frame of an interrupted process does not change while its kernel code stays below it |
| KernelRuns.Preempted | src/boot/boot.S:150-170 | over every run: a user process that is interrupted, switched away from and back to any number of times, returns to user mode with all its registers |
| Paging.AllocOutcome | src/kernel/virtual_mm.c:64-97 | vmm_alloc_page succeeds exactly when a table is at hand and the page is mapped or a frame is left; it maps at most that page, to a frame no page has |
| Paging.FreeOutcome | src/kernel/virtual_mm.c:99-109 | vmm_free_page unmaps exactly that page |
| Paging.RunGrantsFreshFrames | src/kernel/virtual_mm.c:87-94 | over every run in which next_free_page does not wrap, granted frames strictly increase inside the pool, so none is granted twice |
| Paging.AtMost4096Frames | src/kernel/virtual_mm.c:27-55 | a run from boot in which next_free_page does not wrap grants at most 4096 frames |
| Paging.PoolRespectedIff | src/kernel/virtual_mm.c:87-92 | a call that takes a frame keeps the invariant exactly if next_free_page does not wrap; the wrapping call maps 0xFFFFF000 |
| Paging.PoolLeftExample | src/kernel/virtual_mm.c:87-92 | from boot, allocating and freeing one page until the counter wraps maps that page outside the pool |
| Paging.WalkAgrees | src/kernel/virtual_mm.c:151-161 | with a page-aligned directory, the processor walks to the frame of the map plus the page offset and faults exactly on unmapped pages |
| Paging.ProcessorAgreesIff | src/kernel/virtual_mm.c:121-125 | processor and map agree on every memory that holds a reachable map exactly if the directory is page-aligned, or too high for any map |
| Paging.DirectoryNeverAligned | src/kernel/virtual_mm.c:29 | the first kmalloc of a fresh heap, which vmm_init takes for the directory, is never page-aligned |
| Paging.LookupAgrees | src/kernel/virtual_mm.c:151-161 | the kernel lookup gives the address of the map and 0 for unmapped pages, wherever the directory lies |
| Paging.UserStoresKeepTheMap | src/kernel/virtual_mm.c:27-30 | no store through a mapped user page changes any translation: frames are neither the directory nor tables |
| Paging.HeapBelowPool | src/kernel/kernel.c:145-148 | whatever the kernel heap hands out lies below the pool of frames |
| Paging.AllocRefines | src/kernel/virtual_mm.c:64-97 | on memory that holds the map, vmm_alloc_page does the allocation of the map if the table it may need is page-aligned memory of its own |
| Paging.FreeRefines | src/kernel/virtual_mm.c:99-109 | on memory that holds the map, vmm_free_page unmaps the page |
| Paging.RunRefines | src/kernel/virtual_mm.c:64-109 | over every run of both calls with such tables, memory holds the map the run of the map arrives at |
| Paging.MapOutcome | src/kernel/virtual_mm.c:111-119 | vmm_map_user_pages maps exactly the pages before the first that cannot be mapped, returns 0 exactly if there is none, and moves no translation |
| Paging.OwnMemoryIff | src/kernel/virtual_mm.c:70-94 | while frames are left, making a table changes only the table and its directory entry, on every memory and for every page, exactly if kmalloc placed it on a page boundary |
| Paging.StrayWord | src/kernel/virtual_mm.c:70-94 | for any table address: the one other word that may change, and exactly when it lies outside the table |
| Paging.FirstMapIff | src/kernel/virtual_mm.c:70-96 | for any table address: the call that makes a table maps its page to the fresh frame exactly if a frame is left and the word for the entry is not the directory entry and is zeroed or has no present bit |
| Paging.WritePte | src/kernel/virtual_mm.c:94 | storing one table entry changes one translation |
| Paging.InstallTable | src/kernel/virtual_mm.c:70-79 | entering an empty page table changes no translation |
| Paging.PteWordsDiffer | src/kernel/virtual_mm.c:64-97 | entries of different pages are different words, none in the directory, all below the pool |
| Paging.MaskIsArithmetic | src/include/virtual_mm.h:10-18 | the masks and shifts equal the divisions used in the model |
| Paging.TableReachedIff | src/kernel/virtual_mm.c:78-81 | the masked directory entry leads back to the table exactly when the table is page-aligned |
| Paging.Vmm.VmmInit | src/kernel/virtual_mm.c:25-62 | for any result of kmalloc: the directory entries, user and kernel part, the pool 16 MB above the kernel, and no other word changed |
| Paging.BootHolds | src/kernel/virtual_mm.c:25-62 | after vmm_init memory holds the empty map |
| Paging.Vmm.AllocPage | src/kernel/virtual_mm.c:64-97 | does on memory words what AllocMem says, for any directory and any results of kmalloc |
| Paging.Vmm.FreePage | src/kernel/virtual_mm.c:99-109 | does on memory words what FreeMem says |
| Paging.Vmm.MapUserPages | src/kernel/virtual_mm.c:111-119 | the loop is MapMem, address wrap-around included |
| Paging.Vmm.GetPhysFromVirt | src/kernel/virtual_mm.c:151-161 | returns what LookupMem says |
| Paging.Vmm.IsMapped | src/kernel/virtual_mm.c:163-171 | true exactly for the mapped pages of any map that memory holds |
| Elf.StaysInUserSpaceIff | src/kernel/elf.c:24-31 | a loaded segment is written inside user space exactly when its start plus the larger of file and memory size is at most 0xC0000000 |
| Elf.SegmentBounds | src/kernel/elf.c:51-58 | a loaded well-formed segment lies in user space and its bytes in the file |
| Elf.SegmentsDisjoint | src/kernel/elf.c:60-73 | loaded segments share no address |
| Elf.ClashIff | src/kernel/elf.c:67-73 | the overlap test rejects exactly shared addresses, and earlier empty segments inside the current one |
| Elf.LoadFromFrame | src/kernel/elf.c:45-81 | loading writes only inside loaded segments |
| Elf.OnlyUserSpaceChanges | src/kernel/elf.c:45-81 | accepted or rejected halfway, a file of well-formed segments changes user space only |
| Elf.UserSpaceOnlyIff | src/kernel/elf.c:33-83 | for every file with valid headers: nothing outside user space changes, on any memory, if and only if every segment reached ends inside by the larger of its sizes |
| Elf.WrittenByteFixed | src/kernel/elf.c:75-80 | what a reached segment writes does not depend on earlier memory |
| Elf.OversizedSegmentExample | src/kernel/elf.c:33-83 | a file whose one segment has more file bytes than memory and ends past user space is accepted on every memory, and its bytes land above user space |
| Elf.AcceptedFileEscapes | src/kernel/elf.c:33-83 | a concrete accepted file changes memory outside user space |
| Elf.AcceptedImage | src/kernel/elf.c:75-80 | an accepted file leaves every segment equal to its file bytes followed by zeros and all other memory as it was |
| Elf.LastWriterDecides | src/kernel/elf.c:45-81 | for every file, accepted or not: the byte at an address is that of the last segment to write there |
| Elf.ImageKeptIff | src/kernel/elf.c:45-81 | a loaded segment is in memory at the end, on every memory, exactly if at each of its addresses the last segment to write there puts the same byte |
| Elf.LostImageExample | src/kernel/elf.c:60-80 | an accepted file whose first segment has more file bytes than memory loses half of them to the second |
| Elf.AcceptedIff | src/kernel/elf.c:33-43 | a file is accepted exactly when the headers pass and no program header is rejected |
| Elf.ElfValidate | src/kernel/elf.c:11-21 | 0 exactly for an ELF32 little-endian i386 executable with a whole header |
| Elf.JudgeHeader | src/kernel/elf.c:45-73 | the checks and the inner overlap loop compute the verdict on a header |
| Elf.CopySegment | src/kernel/elf.c:75-80 | the copy and zero loops store the segment, pointer wrap-around included |
| Elf.ElfLoad | src/kernel/elf.c:33-83 | the loop leaves the model's memory and returns the entry point exactly on acceptance |
| Paths.DirectChildByPosition | src/kernel/vfs.c:156-176 | being parent, slash and a slash-free name is the positional test the code makes |
| Paths.BaseNameOfChild | src/kernel/vfs.c:178-185 | the base name of a direct child is its name in the parent |
| Paths.StrCpy | src/kernel/vfs.c:21-26 | copies at most max - 1 characters |
| Paths.StrCmp | src/kernel/vfs.c:28-31 | 0 exactly for equal strings |
| Paths.StrNCmp | src/kernel/vfs.c:33-39 | 0 exactly when both strings have the same first n characters, or fewer |
| Paths.IsValidPath | src/kernel/vfs.c:42-58 | true exactly for a non-null, non-empty path without two dots in a row |
| Paths.IsValidPathLen | src/kernel/vfs.c:61-66 | true exactly for lengths 1 to 255 |
| Paths.IsDirectChild | src/kernel/vfs.c:156-176 | true exactly for direct children |
| Paths.BaseName | src/kernel/vfs.c:178-185 | points behind the last slash that something follows |
| VfsModel.OthersUntouched | src/kernel/vfs.c:85-144 | no operation changes a node or buffer other than the one it acts on |
| VfsModel.StepKeepsInv | src/kernel/vfs.c:85-281 | every operation keeps stored paths valid and at most 127 characters and data terminated |
| VfsModel.RunKeepsInv | src/kernel/vfs.c:85-281 | the same over every run |
| VfsModel.WriteReadRoundTrip | src/kernel/vfs.c:198-247 | a write then a permitted read gives the longest NUL-free prefix that fits |
| VfsModel.FoundAfterMakeIff | src/kernel/vfs.c:76-93 | a new node is found under its path exactly when the path was not cut and no earlier live node has it |
| VfsModel.FailedMakeFileIff | src/kernel/vfs.c:95-123 | a failing vfs_mkfile changes nothing, except exactly for content of 4096 characters or more, which leaves a node behind |
| VfsModel.RenameOutcome | src/kernel/vfs.c:266-274 | when a rename succeeds, that only the path changes, and what both paths find afterwards |
| VfsModel.LookupIsFirst | src/kernel/vfs.c:146-154 | the slot found is the first item of that path |
| VfsModel.ReadRefines | src/kernel/vfs.c:198-225 | reading the table is reading the first item of the path |
| VfsModel.StepRefines | src/kernel/vfs.c:85-281 | every operation does to the list of live items, and returns, what the list operation does, given whether a slot is left |
| VfsModel.RunRefines | src/kernel/vfs.c:85-281 | over every run, the results and the final items are those of the list alone, which has room for 128 creations |
| VfsModel.BootRunRefines | src/kernel/vfs.c:68-281 | from boot, every run returns what it returns on an empty list, and every later read sees what the list holds |
| VfsModel.BootExamples | src/kernel/vfs.c:76-123 | right after boot: a path of 128 characters is accepted and not found, and over-long content is refused with the node left behind |
| Vfs.ChildrenOutcome | src/kernel/vfs.c:187-196 | a listing holds exactly the live direct children, each once, in slot order |
| Vfs.FileSystem.Init | src/kernel/vfs.c:68-74 | empties the file system |
| Vfs.FileSystem.MakeNode | src/kernel/vfs.c:85-144 | the creators of directories, devices and dynamic files |
| Vfs.FileSystem.MkFile | src/kernel/vfs.c:95-123 | the creator of files, its late failure included |
| Vfs.FileSystem.LookupNode | src/kernel/vfs.c:146-154 | the scan finds the first live node of the path |
| Vfs.FileSystem.List | src/kernel/vfs.c:187-196 | returns exactly the first max children in slot order |
| Vfs.FileSystem.ReadNode | src/kernel/vfs.c:198-225 | copies the text and a terminator and leaves the rest of the buffer alone |
| Vfs.FileSystem.WriteNode | src/kernel/vfs.c:231-247 | stores at most 4095 characters and a terminator in the node's buffer |
| Vfs.FileSystem.RemoveNode | src/kernel/vfs.c:249-264 | removes the first writable match |
| Vfs.FileSystem.RenameNode | src/kernel/vfs.c:266-274 | renames in place after both checks |
| Vfs.FileSystem.ChmodNode | src/kernel/vfs.c:276-281 | sets the permissions of the first match |
| Keyboard.PutAppends | src/kernel/teclado.c:110-114 | a character joins the end of the queue exactly when fewer than 127 wait |
| Keyboard.InterruptOutcome | src/kernel/teclado.c:54-117 | an interrupt keeps kb_state equal to the modifiers and appends the typed character if there is room |
| Keyboard.PressReleaseRoundTrip | src/kernel/teclado.c:57-92 | pressing and releasing a modifier restores the driver exactly if it was up; caps lock twice always does |
| Keyboard.TakeOne | src/kernel/teclado.c:119-124 | advancing the tail takes the oldest character off |
| Keyboard.StepKeepsInv | src/kernel/teclado.c:54-124 | every interrupt and every single access of keyboard_getchar keeps the queue invariant |
| Keyboard.RunKeepsInv | src/kernel/teclado.c:54-124 | over every interleaving, delivered followed by pending is accepted, at most 127 pend, and 0 is returned only for a queue seen empty |
| Keyboard.Driver.KeyboardIrq | src/kernel/teclado.c:54-117 | the handler's branches, its echo and its enqueueing |
| Keyboard.Driver.GetChar | src/kernel/teclado.c:119-124 | returns and removes the oldest character, NUL if none |
| Terminal.ScrolledRowsAreFinal | src/kernel/tty.c:59-101 | printing a character never changes a row that has scrolled off and touches only the cursor's row |
| Terminal.StringKeepsScrolledRows | src/kernel/tty.c:103-106 | the same for a string, which adds at most one row a character |
| Terminal.PlainText | src/kernel/tty.c:93-100 | plain text of any length fills consecutive cells row after row, adds blank rows as it needs them, changes no other cell, and leaves the cursor behind it |
| Terminal.PlainTextAt | src/kernel/tty.c:93-100 | character i is (col + i) / 80 rows below the cursor at column (col + i) mod 80 |
| Terminal.TabOutcome | src/kernel/tty.c:77-91 | a tab blanks up to the next multiple of 8 and wraps at column 80 |
| Terminal.BackspaceUndoesIff | src/kernel/tty.c:69-75 | a backspace takes the cursor back over a character exactly when that did not end the row |
| Terminal.ScrollShows | src/kernel/tty.c:15-24 | scrolling the buffer is adding a row to the unbounded screen |
| Terminal.SetCellShows | src/kernel/tty.c:55-57 | writing a cell of the buffer is writing that cell of the screen |
| Terminal.Tty.Scroll | src/kernel/tty.c:15-24 | the loops move every row up by one and blank the last |
| Terminal.Tty.Initialize | src/kernel/tty.c:26-36 | blank screen, cursor at the origin, default colour |
| Terminal.Tty.Clear | src/kernel/tty.c:115-124 | blank screen, cursor at the origin, colour kept |
| Terminal.Tty.PutChar | src/kernel/tty.c:59-101 | the buffer stays the window of the screen and the cursor stays inside it |
| Terminal.Tty.WriteString | src/kernel/tty.c:103-106 | for every string the buffer is the window of 25 rows of the screen that never scrolls |

## Left out

- Port I/O, interrupt controller, timer chip, clock and descriptor-table instructions: hardware effects without logic.
- `gdt.c`, `idt.c`, `tss.c`, `timer.c`, `display.c`, `task.c`: field packing and short scans; esp0 is one field of the process table.
- `framebuffer.c`, `mouse.c`, `syscall.c`, and the commands of `shell.c` and `kernel.c`, apart from their reap steps.
- Heap start-up with a size below 12 bytes or a range that wraps past 2^32; the model asks for neither.
- ProcTable.Procs.ProcInit: does not model the process name and the NULL `ctx` of slot 0, because no step reads either; slot 0's `ctx` is first written by `swtch`.
- Process names and `pdir`, which no modelled step reads; a NULL `current_proc`, which `proc_init` rules out.
- Stack overflow of a process: a dispatch presupposes room for four words on the current kernel stack.
- TF, NT and other flags that an interrupt gate clears: the flags during a handler are a parameter.
- The addresses of kernel tables that `vmm_init` computes and does not use, `vmm_switch_pdir`, and the user heap, which only advances a pointer.
- `kmalloc` for page tables is a list of future results, any word-aligned addresses or 0; that they are not in use elsewhere is said only where it is needed.
- Paging.RunRefines: asks for page-aligned results of `kmalloc` below the pool, because with others a call may write outside its own memory (`OwnMemoryIff`).
- Paging.MapOutcome: asks for a range below 0xC0000000 and a `next_free_page` that does not wrap during the call, because the map is about user pages only.
- The bytes of the ELF file are apart from the memory it is loaded into; aliasing of the two is not modelled.
- Elf.AcceptedImage: asks for segments with `p_filesz` at most `p_memsz` that do not wrap, because others may be overwritten; `ImageKeptIff` says exactly when.
- The scan of `is_valid_path` for an embedded NUL, which stops at the NUL and so cannot find one.
- `file_data_used`, write functions, owners and groups of nodes, which no operation reads; the dynamic readers themselves.
- A write that hands over fewer characters than its size; the caller owes them.
- `keyboard_clear_buffer`, `keyboard_available` and `keyboard_get_state`.
- `keyboard_irq` echoes through `terminal_putchar` (`teclado.c:108`) and may interrupt the main loop inside it; the theorems about the terminal suppose that it does not.
- `terminal_setpos`, which can put the cursor outside the window, and `terminal_write_at`.
