# Verified model of the kernel

A Dafny model of the parts of a small 32-bit x86 operating system whose correctness rests on invariants over many
operations, with proofs of what those parts are for. The files follow the kernel's:

- **Frames and address spaces** (`pmm`, `page_tables`, `paging`, `fork`, `access`, `kernel_stores`, `teardown`,
  `elf`, `elf_bounds`, `elf_format`, `accounting`, `processes`, `eager_facts`, `conservation`, `limits`,
  `witnesses`, `boot`): a bitmap allocator with reference counts under two-level page tables (Intel SDM volume 3A,
  section 4.3), copy-on-write fork, the page-fault handler, stores by the kernel through a program's mapping,
  teardown, and the ELF loader (System V ABI, chapter 5). The central result is `Processes.ProcessTable.Run`: over
  every run this machinery behaves as if fork copied all of memory at once, with exact reference counts throughout;
  `EagerFacts.LoadsLastStore` and `EagerFacts.ProgramStarted` say what that means to a program. Over such runs
  `Conservation.Conserved` accounts for every frame, those included that failed run commands never give back.
- **FAT16** (`bytes`, `fat_layout`, `fat_names`, `fat16`, `fat_disk`, `fat_files`, `fat_read`, `fat_write`,
  `fat_store`, `fat_system`, `fat_witnesses`): the driver over an array of 512-byte sectors (Microsoft FAT
  specification, "FAT Data Structure" and "FAT Directory Structure"). The central result is
  `FatSystem.FileSystem.Run`: over every run the volume stands for a map from 8.3 names to byte strings, and by
  `FatStore.RepliesShow` reads show what was last written.
- **Kernel heap** (`heap_blocks`, `heap`, `heap_runs`): first fit, splitting and coalescing over linked headers in
  memory, and whole histories of calls with their owners' writes in between.
- **KRONK** (`kronk_syntax`, `kronk_program`, `kronk`, `kronk_values`, `kronk_lines`): the evaluator that parses and
  evaluates in one pass, against a grammar with trees; running a program by re-reading its lines, against running it
  read once; and what expressions and lines do, said of their texts.
- **Tasks** (`tasks`, `scheduler`, `task_effects`): the circular task list, scheduling, exit and wait.
- **Tasks with their memory** (`kernel`, `kernel_facts`, `status_witness`): fork, exit, wait and reaping over the
  task list and the address spaces at once. `Kernel.OthersKept`: exactly which calls leave the other programs'
  memory alone. `Kernel.FramesReturn`: whenever the shell is alone again, every frame is back but for the heap's
  pages and what failed run commands have left behind.
- **Mutex** (`mutex`, `mutex_progress`): mutual exclusion, the shared counter of the mutex test, and when its tasks
  can get stuck.

`options` holds the one datatype that several of them share.

Imperative code is modelled by classes and loops, proved against functions on values; the theorems about runs are
about those functions. Wherever a method's contract names a step or a state, the lemmas about that step apply to it,
and what the steps come to is also said without naming them, in bytes, codes and numbers written out: `elf_format`,
`eager_facts`, `kernel_facts`, `fat_disk`, `fat_store`, `kronk_values`, `kronk_lines`, `task_effects`.

## Where the code is not what it says, or not enough

- The comment at `kernel/paging.c:182-190` describes an eager copy; the code shares pages copy-on-write. The model
  follows the code, and the eager copy is the specification it is proved to refine.
- A kernel store through a user mapping does not fault, because write protection is off in ring 0
  (`kernel/paging.c:63-66`), so it reaches every sharer of a frame: `KernelStores.KernelStoreIsolated` says exactly
  when that makes a difference. The exit code that wait stores is such a store (`kernel/syscall.c:167-170`), so a
  child can see the exit code its parent asked for: `Kernel.OthersKept` says exactly when, and
  `StatusWitness.StatusSeen` is a run. The address is not checked either: one in the kernel's half of memory would
  be stored to there (`Kernel.UserStatus`).
- The ELF loader is given no length, and copies and reads headers from beyond the end of a file
  (`kernel/elf.c:113-120`), that is, from whatever the kernel has there: `ElfBounds.ContainedExactly` says exactly
  for which files that makes no difference, and `Witnesses.ReadsPastEnd` is one for which it does.
- Reference counts are one byte wide and are not checked: `Pmm.FrameAllocator.FrameAddref` and `Limits.CountRoom`.
- `paging_map_page` puts heap pages in place of whatever frames lie at the heap's addresses, and `pmm_init` does not
  reserve those: `Paging.AddressSpaces.MapPage` says exactly when the kernel can still reach every frame.
- A load whose pages overlap or lie below user space leaks frames: `Elf.LeakFree`. The shell's run command also
  keeps the directory and pages of a file that does not load (`kernel/shell.c:177-182`), where exec gives them back:
  `Conservation.FailedRunCosts` says what each failed run costs.
- The stack page of a new program is not cleared (`kernel/syscall.c:118-119`, `kernel/shell.c:184-185`), so a store
  by a program that has ended can be seen by one started later, and so can the words of a former page table:
  `Processes.StartedBytes` says that, with a contained file, nothing else can.
- An overwrite that does not fit has freed the old chain before it fails: `FatSystem.OverwriteFailed`.
- `fat16_read_file` with a buffer smaller than the file goes on walking after the buffer is full, so it ends only on
  chains that end: `FatRead.ReadFileFor`, and `FatRead.EndsWithin` for how to tell.
- `mutex_lock` gives up its guard before it sleeps (`kernel/mutex.c:48-50`), and its comment says that being
  overtaken there is fine. It is not when the holder gives the mutex back just then: the wake-up finds the task
  awake, and it sleeps with nobody left to wake it. `MutexProgress.LostWakeUp` is such a run; by
  `MutexProgress.NeverStuck` no run without a wake-up lost in one of two ways, that one or a full queue, gets stuck.
- `fat16_mount` replaces the parameters in use before it refuses a boot sector: `Fat16.Driver.Mount`.

`witnesses`, `status_witness` and `fat_witnesses` hold inputs at which properties fail: for the kernel store, the
exit code, the full count, the heap's addresses, overlapping pages, the file that reaches past its end, the file
that does not load, the stack page, the overwrite that does not fit, the read that does not end, and the mount that
is refused. Those for FAT16 are disks of four sectors, with the driver on them.

## Assumptions

- *Memory.* A physical frame holds page-table entries or bytes, as last written. The bytes of entries are their
  little-endian words; bytes read as entries give fixed junk that no result depends on. Frames and directories are
  named by frame number; 0 stands for none. The kernel's directory has no entry at index 16 or above. All frames
  that can be handed out lie below 64 MiB, and none of them where the heap is mapped: the bootloader's memory map
  must withhold the frames from 4 MiB up to the heap's end. Runs ask for this of every address at which the heap
  grows.
- *Allocation failures the code does not check* (directories and page tables, `kernel/paging.c:96` and `132`, and
  the stack page of a new program): runs are followed up to the operation that would meet one; `Scarce` says, from
  the state before it, exactly which operations do not succeed for lack of frames. Forking needs a free frame for
  the directory and each table, and every count below 255.
- *Bounds the code does not check*: runs are followed up to an exec or run of a file that is not `Contained`, and up
  to a reaping whose exit code is to go to the kernel's half of memory. Both can be told before the call.
- *FAT16.* A consistent BIOS parameter block (`Geometry.Consistent`), ASCII file names, sizes that do not wrap when
  rounded up, and sector reads and writes that succeed.
- *Heap.* A frame for every page the heap grows by, sizes that do not wrap, pointers to kfree that are live.
- *KRONK.* Mathematical integers. Lines typed for INPUT are given as texts, as they are when Enter is typed.
- *Tasks.* `schedule`, creation, each scan-and-block of a wait and each spinlocked section are single steps. A task
  inside a wait call only scans again; only a child is waited for; only a living task is terminated; none is reaped
  while its own children remain. Scheduling is enabled and ids do not wrap. Where tasks and memory are joined, every
  task but the first is a program, and each turn of a wait call carries the address for the exit code.
- *Mutex.* A step is a spinlocked section or one access to the counter; a sleeper may wake at any time.

## Model

| member | source | states |
|---|---|---|
| Pmm.FrameAllocator.constructor | kernel/pmm.c:68-109 | after reading the memory map a frame can be handed out exactly if the map offers it and it is neither low memory nor under the kernel; everything else is reserved for good |
| Pmm.BootFree | kernel/pmm.c:68-109 | the frames free at boot, in numbers: 256 and above, below 32768, not between the first and last page of the kernel, and in an available entry of the map, with 32-bit frame numbers |
| Pmm.BootFreeBytes | kernel/pmm.c:68-109 | so no byte of a free frame is low memory or the kernel's, and where the entries start at page boundaries every byte lies in one that is available |
| Pmm.FrameAllocator.BitmapSet | kernel/pmm.c:38-40 | sets the bit of one frame and of no other, on the byte bitmap |
| Pmm.FrameAllocator.BitmapClear | kernel/pmm.c:41-43 | clears the bit of one frame and of no other |
| Pmm.FrameAllocator.MarkUsed | kernel/pmm.c:48-51 | a frame in range joins the used set, and the count of used frames stays the number of set bits |
| Pmm.FrameAllocator.MarkFree | kernel/pmm.c:52-55 | a frame in range leaves the used set, and the count of used frames stays the number of set bits |
| Pmm.FrameAllocator.AllocFrame | kernel/pmm.c:112-125 | hands out the lowest free frame with count 1, or 0 exactly when no frame is free |
| Pmm.FrameAllocator.FreeFrame | kernel/pmm.c:132-142 | drops one reference: a count above zero is one less, the frame becomes free exactly when its count was 1, and an unreferenced or out-of-range frame is ignored |
| Pmm.FrameAllocator.FrameAddref | kernel/pmm.c:147-154 | adds a reference modulo 256; the allocator stays consistent if and only if the count was below 255 |
| Pmm.FrameAllocator.FreeFrameCount | kernel/pmm.c:162-164 | the frames not marked used are exactly as many as the frames that can be handed out |
| PageTables.Walk | kernel/paging.c:242-256 | what the two-level walk finds in memory is what the layout says: kernel entries below index 16, the table of the address space above, and its page entry behind that |
| PageTables.AddressSplits | kernel/paging.c:119-142 | directory index, table index and offset take an address apart without loss: ten, ten and twelve bits |
| PageTables.EntryWords | kernel/paging.c:13-31 | what each kind of entry is as a word in memory: 7, 0x205 or 3 in the low twelve bits and the frame above them |
| PageTables.LeafWritten | kernel/paging.c:133-140 | writing one page entry changes that entry of that address space and nothing else in memory that the layout describes |
| PageTables.TableAdded | kernel/paging.c:127-137 | a new zeroed table changes no page of any address space |
| PageTables.ClearedTable | kernel/paging.c:312-319 | a page table with all entries cleared reads as a page of zeros: what its frame still holds once teardown has given it back |
| PageTables.LeafStepSound | kernel/paging.c:119-142 | mapping a frame held by the caller keeps every invariant: counts equal mappers plus other references, no entry both writable and copy-on-write, a writable page has one mapper |
| PageTables.IdentityMapped | kernel/paging.c:45-57 | in every sound state the kernel finds every frame in use at its own address |
| PageTables.IdentityAt | kernel/paging.c:45-54 | each of the first 16384 frames has the entry of its own address, present and writable |
| PageTables.KernelEntryStepSound | kernel/paging.c:71-86 | rewriting a kernel page entry keeps every invariant if and only if it is a kernel entry and the frame lying at its address is reserved or mapped to itself |
| Paging.AddressSpaces.constructor | kernel/paging.c:45-69 | the first 64 MiB lie at their own addresses in the sixteen shared tables, and all invariants hold with no address space yet |
| Paging.AddressSpaces.MapPage | kernel/paging.c:71-86 | refuses exactly the addresses without a kernel table; otherwise rewrites one entry, which is safe if and only if no frame that lies there can be handed out |
| Paging.AddressSpaces.CloneKernelDirectory | kernel/paging.c:95-109 | a directory with the kernel entries and no user page, from one free frame |
| Paging.AddressSpaces.TableFor | kernel/paging.c:126-137 | the page table behind a directory entry, made only when it is missing, zeroed, from one free frame |
| Paging.AddressSpaces.MapUserPage | kernel/paging.c:119-142 | refuses exactly the kernel addresses; otherwise maps the frame at the page and makes a table only when one is missing |
| Fork.ShareStepSound | kernel/paging.c:206-229 | sharing one page keeps every invariant, and the child then reads the parent's bytes there |
| Fork.ShareParent | kernel/paging.c:213-224 | the parent's page entry loses write permission and gains the copy-on-write mark, and its frame one reference |
| Fork.ForkDone | kernel/paging.c:202-232 | when the walk over tables and entries is finished, the image is the eager copy |
| Fork.CloneAddressSpace | kernel/paging.c:202-232 | the child reads what the parent reads, page for page, and no other address space changes; it costs a directory and one table for each of the parent's that is in use; every other page stays in its frame |
| UserAccess.HandleCowFault | kernel/paging.c:242-288 | resolves a fault if and only if the page is copy-on-write and its frame is unshared or a frame is free for the copy; otherwise nothing changes |
| UserAccess.ResolvedFacts | kernel/paging.c:255-287 | resolving a fault changes no byte any program reads, makes the page the program's own, and costs at most one frame |
| UserAccess.SoleMapper | kernel/paging.c:262-267 | a copy-on-write page whose frame has one reference has no other mapper, so making it writable is safe |
| UserAccess.CopyStepSound | kernel/paging.c:267-284 | copying a shared page and dropping the old reference keeps every invariant and every image |
| UserAccess.Translate | kernel/idt.c:116-131 | a ring-3 access finds a page exactly if the address space maps it, and may write exactly if the page is its own |
| UserAccess.Load | kernel/idt.c:116-148 | a ring-3 load returns the byte of the address space's image, and faults exactly where nothing is mapped |
| UserAccess.Store | kernel/idt.c:116-131 | a ring-3 store, retried after the fault handler, changes one byte of one page of one address space; it goes through exactly if the page is writable or its fault can be resolved |
| UserAccess.ExtendHeap | kernel/heap.c:30-41 | one page of the heap: a frame is taken and mapped at the heap's end; the kernel still finds all frames if and only if the one that lies there can never be handed out |
| Teardown.ClearStepSound | kernel/paging.c:312-319 | dropping one page entry and its reference keeps every invariant |
| Teardown.FreeAddressSpace | kernel/paging.c:306-325 | exactly the pages and tables of one address space go; every other image, table and page stays |
| Teardown.ReleaseAddressSpace | kernel/task.c:409-412 | pages, tables and directory of a reaped task go, and nothing else |
| Elf.PageImageIsSegment | kernel/elf.c:103-123 | each byte the loader puts in a page is the segment's file byte, or zero outside the file part |
| ElfBounds.ContainedExactly | kernel/elf.c:57-131 | a file is contained, which its headers decide, if and only if the loader makes the same of it whatever lies after it in memory: accepted or not, entry point, pages and bytes |
| ElfBounds.LoadedFromFile | kernel/elf.c:80-127 | of a contained file with distinct user pages and no wrap, every byte from a segment's first page to its last reads through the page walk as the file's own byte below p_filesz, at an offset inside the file, and as zero elsewhere; the file may be taken together with what follows it in memory |
| ElfBounds.PageFromFile | kernel/elf.c:103-123 | every byte in a page that the loader fills from a contained file is a zero or a byte of the file |
| ElfFormat.ReadBack | kernel/elf.c:16-131 | encode and read back: from the executable made of a program the loader reads that entry point, that many headers, and of each the address, the sizes and the offset that were put in |
| ElfFormat.PageInPart | kernel/elf.c:80-127 | every page the loader maps is one that the memory of a part lies in |
| ElfFormat.FileContained | kernel/elf.c:80-127 | an executable made of a program reaches nowhere past its end |
| ElfFormat.ProgramLoads | kernel/elf.c:80-127 | loading the executable made of a program leaves at every address of a part the byte that the program has there, or zero behind its bytes |
| Elf.LeakFree | kernel/elf.c:95-126 | loading into an empty address space leaks no frame if and only if the pages are distinct and in user space |
| Elf.OthersKept | kernel/elf.c:80-127 | loading touches no other address space |
| Elf.FillPage | kernel/elf.c:103-123 | zeroing a frame and copying the overlap leaves exactly the page's image in it |
| Elf.LoadSegment | kernel/elf.c:80-127 | all pages of one segment, in order; or as many as there were frames for, if the frames do not suffice for all |
| Elf.ElfLoad | kernel/elf.c:58-131 | refuses exactly the files that are not 32-bit ELF; succeeds exactly if the frames suffice for every page and every missing table, and then maps all pages of all PT_LOAD segments in order, for just those frames, and gives the entry point of ElfFormat.ReadBack; a failure maps a beginning of them; frames leak exactly when a page was mapped twice or refused |
| Accounting.FramesAddUp | kernel/pmm.c:112-142 | reserved frames, directories, tables, distinct mapped frames, frames held otherwise and free frames add up to all frames, in every sound state |
| Accounting.Disjoint | kernel/paging.c:206-229 | no frame is two of: directory, table, mapped page, held otherwise, free, reserved |
| Accounting.ExactCounts | kernel/paging.c:206-229 | between operations a directory or table has count 1 and is nothing else; a mapped frame is counted once for each page entry over all address spaces that maps it; a writable page has one mapper, count 1, and is not marked copy-on-write |
| Accounting.OneSpaceCost | kernel/paging.c:119-142 | with one address space the free frames are all frames less the reserved, its directory, its tables, its pages and what is held otherwise |
| Accounting.SameLayoutSameFree | kernel/paging.c:306-325 | equal layouts and equal outside references mean equal reference counts and equal free frames |
| Processes.Isolation | kernel/syscall.c:68-85 | under the eager semantics nothing other processes do changes a process's memory, but for what the kernel stores for one of them into a frame it shares |
| Processes.ForkedApart | kernel/paging.c:182-190 | under the eager semantics, whatever happens after a fork, the child's memory is what the parent's was at the fork for as long as the child does nothing and no kernel store reaches it, and so is the parent's |
| Processes.RoomDecided | kernel/paging.c:202-232 | scanning tables and counts decides exactly whether there is a free frame for the child's directory and each of its tables and a count below 255 for each page, which is enough for fork and, by Limits.ForkNeedsRoom, needed |
| Limits.ForkNeedsRoom | kernel/paging.c:202-232 | a fork with a complete copy as its outcome, with all counts exact and nothing else touched, is possible only with that room beforehand |
| Processes.BuildProgram | kernel/syscall.c:107-126 | a new program is built if and only if the file is 32-bit ELF and the frames suffice for its directory, pages, tables and stack; its stack page holds byte for byte what the frame it lies in held, page-table entries as little-endian words included, and that frame is, of those that were free, the one after those for directory and file; it leaks no frame if and only if its pages and the stack page are distinct user pages |
| Processes.ProgramBytes | kernel/elf.c:103-123 | every byte of a new program from a contained file is a zero or one of the bytes of that file, except on the stack page |
| Processes.StartedBytes | kernel/syscall.c:108-126 | what a program can read when exec or run starts it from a contained file: zeros, bytes inside its file, and on the stack page exactly what one determined free frame held, be it another program's memory or a page table |
| Processes.ProcessTable.Fork | kernel/syscall.c:68-85 | the child is a full copy under the next id, if and only if frames and reference counts suffice |
| Processes.ProcessTable.Load | kernel/idt.c:116-148 | a load shows the byte the eager semantics has, or halts exactly where it has none |
| Processes.ProcessTable.Store | kernel/idt.c:116-131 | a store changes one process's memory as the eager semantics says; the only other outcome is a shared page that needs a copy with every frame in use |
| Processes.ProcessTable.StoreByKernel | kernel/syscall.c:167-170 | a kernel store through a process's mapping changes the byte for exactly the processes whose page lies in the same frame, and halts exactly where nothing is mapped |
| Processes.ProcessTable.Exec | kernel/syscall.c:103-150 | for contained files: the new program replaces the old only once complete, and does so for every 32-bit ELF file that the frames suffice for; a failed exec changes no process's memory, and gives back every frame when the file's pages are distinct user pages |
| Processes.ProcessTable.Spawn | kernel/shell.c:177-190 | for contained files: a new process holding the program's image and a stack page, for every 32-bit ELF file that the frames suffice for; a failed one changes no process's memory and leaves one more directory that is nobody's, for one frame if the file is refused and for all that were free if they did not suffice |
| Processes.ProcessTable.Reap | kernel/task.c:397-416 | the process's memory goes and every other's stays |
| Processes.ProcessTable.GrowHeap | kernel/heap.c:30-41 | the kernel heap takes one free frame, and no process and no count of a process notices |
| Processes.ProcessTable.Run | kernel/syscall.c:68-170 | refinement, over every run of fork, load, store, kernel store, exec, spawn, reap and heap growth: every event is one the eager copy-everything semantics produces, every process's memory is what that semantics says, a kernel store reaches exactly those who share the frame, a new stack page holds what its frame held, exec and spawn run out of frames exactly where the frames do not suffice, failed spawns leave behind exactly what Leftovers says, and at every moment all reference counts are exact, until an operation finds frames or reference counts too scarce or a file that is not contained |
| EagerFacts.LoadsLastStore | kernel/idt.c:116-131 | over every run of the eager semantics, and so of the machinery: what a process loads at an address is what it last stored there, for as long as no exec of its own and no kernel store that reaches it there comes between |
| EagerFacts.ByteStays | kernel/syscall.c:68-170 | whatever is not a store there of the process itself, a kernel store that reaches it there, its exec or its reaping leaves a byte of a process as it is |
| EagerFacts.ProgramStarted | kernel/syscall.c:103-150 | exec or run of the executable made of a program: it is started if and only if the frames suffice, at the entry point that was put in, with the program's bytes at its addresses and its stack page at 0x40100000 |
| Conservation.SeparateCost | kernel/pmm.c:112-142 | while no two processes share a page, the free frames are all frames less the reserved, the held, what failed run commands left behind, and a directory for each process and a frame for each page and each table of its memory |
| Conservation.ApartThrough | kernel/paging.c:206-229 | over any run, two processes that shared no page at the start share none at the end, whoever forked whom in between |
| Conservation.Conserved | kernel/paging.c:202-325 | over any run from processes that share no page to the same processes, failed run commands included: free frames, frames that the memories need, frames left behind by failed run commands and held frames are the same in sum; each failed run command leaves one more directory behind and nothing else does; without leaking loads the held frames grow by the pages of the heap alone, and without an exec of those processes what their memories need is the same |
| Conservation.ReapingReturnsFrames | kernel/paging.c:202-325 | any run of forks, loads, stores, kernel stores and reaps that starts with processes that share no page and ends with the same processes has as many free frames at its end as at its beginning |
| Conservation.FailedRunCosts | kernel/shell.c:177-182 | a run command whose file does not load always lowers the number of free frames: by one if the file is refused, and to none if the frames did not suffice; its directory is nobody's |
| KernelStores.KernelStoreIsolated | kernel/paging.c:63-66 | a kernel store through a user mapping behaves like the program's own if and only if the frame has one mapper or the byte was already there |
| KernelStores.KernelStore | kernel/syscall.c:167-170 | a kernel store changes the byte for every mapper of the frame and for nobody else |
| Limits.CountRoom | kernel/pmm.c:147-154 | adding a reference keeps counts equal to mappers if and only if the count is below 255 |
| Limits.ForkAndReap | kernel/paging.c:202-325 | whatever other processes there are, a fork whose child is reaped at once restores the very same free frames and everyone's memory |
| Witnesses.KernelStoreSeen | kernel/paging.c:63-66 | two programs share a page, and a kernel store for one of them changes the other's memory |
| Witnesses.FullCount | kernel/pmm.c:147-154 | a page shared by 255 programs: one more reference makes its count 0 and its frame free to hand out |
| Witnesses.HeapOverFrame | kernel/heap.c:38-39 | with frame 1024 offered by the memory map, the heap's first page makes the kernel lose it |
| Witnesses.OverlapLeaks | kernel/elf.c:80-127 | a 116-byte ELF file with two segments on one page leaks a frame |
| Witnesses.ReadsPastEnd | kernel/elf.c:113-120 | an 84-byte ELF file whose program finds, at the address of its segment, whatever byte lies after the file in memory |
| Witnesses.RunNoElf | kernel/shell.c:177-182 | running a file that is no ELF file, wherever a frame is free, costs that frame for good |
| Witnesses.OldByteShown | kernel/syscall.c:118-119 | whatever byte a program stores on its stack before it ends, the next program started reads it on its own |
| Boot.BootAndRun | kernel/kernel.c:57-59 | from any memory map that withholds memory above 64 MiB and the sixteen tables: the allocator, paging and the process table come up with every other frame free and no process, and any run from there is one of the eager semantics |
| Boot.BootAndCall | kernel/kernel.c:57-59 | the same with the task list: the shell is task 0, and any calls from there, for as long as each can be followed and none halts the machine, are a run of the transition relation with tasks and address spaces belonging together throughout |
| Kernel.WaitEffect | kernel/syscall.c:159-173 | what a wait call does to any byte of any program still there afterwards, the caller included: nothing, except that the four bytes of the exit code reach all who share the page that the caller's address names |
| Kernel.StatusFound | kernel/syscall.c:167-170 | the caller finds the exit code of the child at the address it gave |
| Kernel.OthersKept | kernel/syscall.c:61-173 | a call of one task, exits and waits included, leaves what another program reads as it was, unless that program is reaped by it, if and only if no byte of an exit code that differs from what is there goes to a frame the two share |
| Kernel.CallMatched | kernel/task.c:349-457 | after every call the address spaces are those of the programs in the ring, and every task ever created is in the ring or was reaped |
| Kernel.MemoryKept | kernel/task.c:390-416 | over every run of calls a program has its memory until it is reaped and not after, zombie or not, and the memory is unchanged for as long as others run and no exit code spills into it, which is decided call by call |
| Kernel.FramesReturn | kernel/shell.c:188-202 | over every run of calls from the shell alone to the shell alone, with files whose pages do not overlap: as many frames are free as at first, less the pages the kernel heap has grown by, unless a run command has failed; every one that has costs at least one more |
| Kernel.Machine.Arrange | kernel/task.c:304-382 | preemption, exit and kill on the linked records leave every address space alone, those of zombies too |
| Kernel.Machine.Await | kernel/syscall.c:159-173 | one turn of a wait call: the address space of the task reaped is given back, if one was reaped, and the exit code is stored where the caller asks, through its mapping; all four bytes of it, or a fault at the first whose page is not there |
| Kernel.Machine.Act | kernel/syscall.c:68-157 | fork, exec, run, loads and stores act on the running task's memory, and a task is created exactly when a new address space is |
| Kernel.Machine.Perform | kernel/syscall.c:61-173 | every call does to the task list and to the address spaces together what the transition relation says |
| Kernel.Machine.Run | kernel/syscall.c:61-173 | any calls one after the other, each made when its turn comes: the states passed through are a run of the transition relation, with tasks and memory matched at each, up to a halt or a call that cannot be followed |
| KernelFacts.LoadsWhatWasStored | kernel/syscall.c:61-173 | over every run of calls with tasks: a program that loads from an address finds what it last stored there, whatever it and others have called in between, but for an exec of its own and an exit code that went there |
| KernelFacts.CodeDelivered | kernel/syscall.c:159-173 | over every run of calls from boot: when a wait stores a code for its caller, an earlier call has ended a child of the caller, by its exit or by a kill, and the word the caller then finds at its address is the code that call named |
| StatusWitness.StatusSeen | kernel/syscall.c:159-173 | fifteen calls from boot, with sixteen frames to spare: a program forks a child that exits and another that only reads its stack, and waits with the exit code to go to its own stack; the other child, asleep all the while, reads 0 before and the exit code after |
| FatLayout.FatApart | kernel/fat16.c:258-266 | sectors of different table copies never coincide |
| FatLayout.DataInside | kernel/fat16.c:98-100 | a cluster's sectors lie inside the data area of the volume |
| FatLayout.DataApart | kernel/fat16.c:98-100 | different clusters share no sector |
| FatDisk.BootFields | kernel/fat16.c:62-96 | which bytes of the disk are the parameters: 11, 13, 14, 16, 17, 19 and 22 |
| FatDisk.EntryBytes | kernel/fat16.c:242-251 | where the entry of a cluster lies on the disk: two bytes each behind the reserved sectors |
| FatDisk.SlotFields | kernel/fat16.c:130-162 | where a slot of the root directory lies, and at which of its 32 bytes name, attributes, first cluster and size are |
| FatDisk.ClusterBytesAt | kernel/fat16.c:98-100 | where each byte of a cluster lies: one cluster behind the other from cluster 2 on, after the directory |
| FatDisk.FileOnDisk | kernel/fat16.c:164-201 | the file of a slot, byte by byte off the disk: as long as the slot says, each byte in the cluster that the slot and then the table lead to |
| FatDisk.Kinds | kernel/fat16.c:130-162 | which entries are links, and which slots hold files: bits and bytes written out |
| FatDisk.LookupIs | kernel/fat16.c:130-162 | the slot found under a name is the first with a file of that name, before any that was never used |
| FatLayout.EntryWrittenVolume | kernel/fat16.c:258-272 | an entry replaced in every copy changes that entry of the table alone, keeps the copies equal, and touches neither directory nor data |
| FatLayout.SlotWrittenVolume | kernel/fat16.c:401-418 | rewriting a directory sector in one slot changes that slot alone |
| FatLayout.ClusterWrittenVolume | kernel/fat16.c:396-397 | writing a cluster's sectors changes that cluster alone |
| FatNames.ToFatName | kernel/fat16.c:105-128 | the upper-cased, space-padded name before the first dot and extension after it, both cut to size |
| FatNames.NameBytes | kernel/fat16.c:105-128 | the eleven bytes one by one: the letters before the first dot and after it in capitals, and spaces where there are none |
| FatNames.ListedBytes | kernel/fat16.c:224-230 | what the listing shows of a name, in terms of where the first spaces are |
| FatNames.FormatName | kernel/fat16.c:224-230 | the listed form of an on-disk name |
| FatNames.ListedConvertsBack | kernel/fat16.c:105-230 | listing a name and converting it back gives the name if and only if both fields are upper-case text padded with spaces and the name field has no dot |
| Fat16.Driver.Mount | kernel/fat16.c:62-96 | copies the boot sector's parameters, then accepts exactly 512-byte sectors; the volume is usable if and only if it was accepted and its layout is consistent; a refusal leaves the derived sector numbers but not the parameters |
| Fat16.Driver.ReadSectors | kernel/fat16.c:171-177 | the sectors' bytes end to end |
| Fat16.Driver.FatReadEntry | kernel/fat16.c:242-251 | the entry of the flat table |
| Fat16.Driver.FatWriteEntry | kernel/fat16.c:258-272 | the flat table with that entry replaced, in every copy, and nothing else |
| Fat16.Driver.FatAllocCluster | kernel/fat16.c:278-292 | claims the lowest free cluster with an end mark; fails exactly when none is free, changing nothing |
| Fat16.Driver.FatFreeChain | kernel/fat16.c:294-302 | ends on every table whose links stay in range, cyclic or not, having zeroed what it walked |
| Fat16.Driver.FindFile | kernel/fat16.c:130-162 | finds the file that the directory scan yields for the converted name, with its first cluster and size |
| Fat16.Driver.FindDirentSlot | kernel/fat16.c:307-351 | agrees with the find on whether the file exists; otherwise gives the first vacant slot, and fails exactly when there is none |
| Fat16.Driver.WriteCluster | kernel/fat16.c:396-397 | replaces one cluster's bytes on the volume |
| FatFiles.LookupFinds | kernel/fat16.c:130-162 | a file in the directory is the one found under its name |
| FatFiles.NeededIs | kernel/fat16.c:369-370 | the rounding-up formula is the number of clusters a size needs |
| FatFiles.FreeFromClears | kernel/fat16.c:294-302 | freeing from the first cluster of a chain zeroes exactly the chain |
| FatFiles.KeptCleared | kernel/fat16.c:365-367 | freeing one chain keeps every other chain linked, apart and ended |
| FatFiles.KeptGrown | kernel/fat16.c:376-398 | adding a free cluster to the end of the chain being written keeps all chains linked, apart and ended |
| FatFiles.FilesWritten | kernel/fat16.c:401-418 | filling a slot gives the map that name and changes no other |
| FatFiles.FilesRemoved | kernel/fat16.c:446-453 | vacating a slot takes that name from the map and changes no other |
| FatFiles.ClustersAddUp | kernel/fat16.c:278-302 | free clusters and clusters of chains are disjoint and add up to all clusters |
| FatRead.ReadFile | kernel/fat16.c:164-201 | ends on any table with links in range if the buffer holds the file, and otherwise if the chain ends within as many steps as there are clusters; leaves in the buffer the walked clusters' bytes up to both sizes, and the rest of the buffer alone |
| FatRead.ReadFileFor | kernel/fat16.c:174-198 | the same loop for a given number of turns, on any table with links in range: with a buffer smaller than the file it is over if and only if the chain has ended by then |
| FatRead.EndsWithin | kernel/fat16.c:174-198 | with links in range a chain ends if and only if it ends within as many steps as the volume has clusters |
| FatRead.NextCluster | kernel/fat16.c:186-197 | the next entry of the table, whether or not its sector is the cached one |
| FatRead.WalkReadsFile | kernel/fat16.c:164-201 | on a kept volume the bytes read are the file's, up to the smaller of file and buffer |
| FatRead.LinksStayInside | kernel/fat16.c:186-197 | on a kept volume no link leaves the volume |
| FatWrite.FreedCount | kernel/fat16.c:294-302 | freeing a chain frees as many clusters as it has |
| FatWrite.ClusterBuffer | kernel/fat16.c:387-394 | the bytes of one cluster: so many of the data, and zeros behind them |
| FatWrite.WriteOne | kernel/fat16.c:376-398 | takes one free cluster, links it, and writes the next bytes padded with zeros; fails exactly when no cluster is free |
| FatWrite.WriteChain | kernel/fat16.c:369-399 | succeeds if and only if enough clusters are free; then the chain holds the data and has just the clusters it needs; otherwise the table is as before |
| FatSystem.DirectoryFilled | kernel/fat16.c:307-351 | the slot chosen keeps names unique and everything after the first unused slot unused |
| FatSystem.FillSlot | kernel/fat16.c:401-418 | one slot replaced by a file of that name, first cluster and size |
| FatSystem.VacateSlot | kernel/fat16.c:446-453 | one slot marked deleted |
| FatSystem.OverwriteFailed | kernel/fat16.c:365-382 | an overwrite that runs out of clusters leaves a slot naming a free cluster, whatever chains are tried: the volume is damaged |
| FatSystem.EmptyVolume | kernel/fat16.c:278-292 | a volume with a free table and an unused directory stands for no files, all clusters free |
| FatStore.Untouched | kernel/fat16.c:353-459 | a file keeps its contents through any requests that do not name it |
| FatStore.StoreAddsUp | kernel/fat16.c:278-302 | free clusters plus the clusters that file sizes need stay constant over any run of writes and deletes |
| FatStore.RepliesShow | kernel/fat16.c:130-459 | over every run of requests from any files: a read shows the data of the last successful write of its name, or what was there at first, as far as the buffer goes, and finds nothing after a delete; a delete finds exactly what is there |
| FatStore.DamagesIs | kernel/fat16.c:365-382 | the one request that damages a volume, in numbers: a write over a file that has clusters, of more clusters than are free together with those |
| FatSystem.FileSystem.Read | kernel/fat16.c:130-201 | finds exactly the files of the map and reads their bytes up to the smaller of file and buffer |
| FatSystem.FileSystem.Write | kernel/fat16.c:353-424 | succeeds if and only if there is a slot, and clusters, those of the file replaced included; then the name has the data and every other file its contents; a failure that freed nothing changes no table entry, slot or file; one that freed an old file damages the volume and leaves every other file |
| FatSystem.FileSystem.Delete | kernel/fat16.c:430-459 | says whether the file was there; the name is gone, every other file has its contents, and clusters and slot are given back; a missing name changes nothing |
| FatSystem.FileSystem.Run | kernel/fat16.c:130-459 | refinement: any run of reads, writes and deletes on raw sectors, up to an overwrite that does not fit, is answered from a map of names to byte strings and leaves the volume standing for that map; every read shows what was last written under its name |
| FatSystem.MountAndRun | kernel/fat16.c:62-459 | the same from the raw sectors on: mounting, then any requests that do not damage the volume |
| FatWitnesses.OverwriteDamages | kernel/fat16.c:365-382 | on a mounted four-sector disk whose only cluster holds a file of one byte, writing 600 bytes over it fails and leaves no volume, whatever chains are tried |
| FatWitnesses.ReadGoesOn | kernel/fat16.c:174-198 | on a mounted four-sector disk whose file's cluster is followed by itself, reading the file into an empty buffer is not over after any number of turns |
| FatWitnesses.RemountRefused | kernel/fat16.c:62-96 | a second mount that is refused leaves the volume counted as mounted, with parameters that do not belong to it |
| HeapBlocks.LiveApart | kernel/heap.c:53-102 | payloads in use are aligned, inside the heap, and do not overlap |
| HeapBlocks.LowestFit | kernel/heap.c:63-83 | the block chosen has the lowest address of all that fit |
| HeapBlocks.TakeTiles | kernel/heap.c:64-79 | splitting keeps the blocks tiling the heap |
| HeapBlocks.TakeLive | kernel/heap.c:64-79 | taking a block makes its payload live and touches no other |
| HeapBlocks.CoalesceComplete | kernel/heap.c:112-121 | the single pass leaves no two adjacent free blocks, on any list |
| HeapBlocks.FreeingReleases | kernel/heap.c:110-121 | with no adjacent free blocks before, the pass joins exactly the freed block and its free neighbours |
| HeapBlocks.TakeThenRelease | kernel/heap.c:64-121 | freeing a block just taken restores the list exactly |
| HeapBlocks.GrowThenRelease | kernel/heap.c:85-121 | freeing a block the heap just grew for leaves the new pages free at the end, joined with a free last block |
| HeapBlocks.HistorySound | kernel/heap.c:53-124 | over every history of kmalloc and kfree the blocks tile the heap, no two free ones are adjacent, and what was not freed is where it was and of its size |
| HeapBlocks.MallocThenFree | kernel/heap.c:53-124 | kfree of what kmalloc just returned without growth restores the heap exactly |
| Heap.Heap.constructor | kernel/heap.c:43-51 | one free block over the first four pages: 16372 bytes behind its header at 4 MiB |
| Heap.Heap.Kmalloc | kernel/heap.c:53-102 | the headers in memory spell the list after a first-fit allocation: the payload of the lowest free block that is large enough, cut to the size asked for, in words of four bytes, if 28 bytes or more would be left over, with the rest one free block behind it; or else the least number of new pages that hold it; it is aligned, it alone becomes live, and live payloads keep their words |
| Heap.Heap.TakeBlock | kernel/heap.c:64-79 | marks a block used and cuts it to size when at least 28 bytes would be left over, with one free block of the old size less that and 12 behind it; otherwise it is taken whole; every other block stays |
| Heap.Heap.GrowHeap | kernel/heap.c:85-101 | appends and links one block: as few pages of 4096 bytes as hold the size and a header of 12 |
| Heap.Heap.Kfree | kernel/heap.c:104-124 | the headers in memory spell the list with the block free and joined to its free neighbours; other live payloads stay, words included |
| Heap.Heap.CoalescePass | kernel/heap.c:112-121 | the loop over linked headers computes the coalesced list |
| HeapRuns.Run | kernel/heap.c:53-124 | over every history of kmalloc, kfree and the owners' writes: what was handed out, before or during the history, and not freed since is live, at its size, and each word of it holds what its owner last put there |
| KronkSyntax.TextRead | kernel/kronk.c:74-124 | the text of any expression tree, with no more parentheses than precedence and order ask for, is read back as that tree wherever it stands, as expression, term or factor |
| KronkSyntax.QuotientTruncates | kernel/kronk.c:104-109 | division leaves a remainder smaller than the divisor, with the sign of the dividend |
| KronkSyntax.ReadsBack | kernel/kronk.c:114-124 | printing a tree with no more parentheses than needed and parsing the text gives the tree and consumes all of it |
| KronkSyntax.NumberRead | kernel/kronk.c:66-72 | decimal digits are read back as their number |
| Kronk.EvaluatesText | kernel/kronk.c:114-124 | evaluating the printed text of any expression tree gives the tree's value and consumes the text, or sets the flag where there is no value |
| KronkValues.Calculates | kernel/kronk.c:74-124 | of texts that have values: their sum, difference and product, written with no more parentheses than needed, and the negation, have the sum, difference, product and negation of the values |
| KronkValues.Divides | kernel/kronk.c:99-112 | of texts with values x and y, the quotient has the value of x / y cut off towards zero, and none if y is zero |
| KronkValues.NothingToCalculate | kernel/kronk.c:74-124 | without a value on either side there is none |
| KronkValues.SameValue | kernel/kronk.c:74-97 | putting a text in parentheses where it needs none does not change what it is worth |
| KronkValues.LetterValue | kernel/kronk.c:88-92 | a letter stands for its variable, in either case |
| KronkValues.DigitsValue | kernel/kronk.c:66-72 | digits stand for their decimal number |
| KronkValues.SpaceBefore | kernel/kronk.c:53-55 | a space or a tab before an expression makes no difference |
| KronkValues.NoExpression | kernel/kronk.c:74-97 | where no digit, letter, minus or parenthesis stands there is no expression |
| Kronk.NoTermAfter | kernel/kronk.c:99-112 | once an operand has no value, nothing that follows in the term gives it one |
| Kronk.Interpreter.ParseNumber | kernel/kronk.c:66-72 | the number and position that the grammar gives |
| Kronk.Interpreter.Factor | kernel/kronk.c:74-97 | agrees with parsing the factor and evaluating the tree: same value, same position, flag untouched; and when there is no tree or no value the flag is set |
| Kronk.Interpreter.Term | kernel/kronk.c:99-112 | agrees with parse-then-evaluate on terms, division by zero included |
| Kronk.Interpreter.Expression | kernel/kronk.c:114-124 | agrees with parse-then-evaluate on every text from every position |
| Kronk.Interpreter.ParseCond | kernel/kronk.c:128-142 | agrees with parsing the condition and comparing the two values |
| Kronk.Interpreter.AtKeyword | kernel/kronk.c:144-150 | whether the keyword stands there in either case |
| Kronk.Interpreter.FindLineIndex | kernel/kronk.c:152-156 | the first line with the number, or -1 if there is none |
| Kronk.Interpreter.PrintInt | kernel/kronk.c:40-51 | appends the signed decimal text |
| KronkProgram.PrintedReadsBack | kernel/kronk.c:40-72 | every number printed is read back as itself |
| KronkProgram.PrintedFits | kernel/kronk.c:41-50 | every 32-bit number fits the eleven characters of the buffer |
| Kronk.Interpreter.ExecLet | kernel/kronk.c:169-180 | LET does what the assignment read from the text does |
| Kronk.Interpreter.ExecPrint | kernel/kronk.c:216-234 | PRINT appends the pieces read from the text, evaluated, or sets the flag |
| Kronk.Interpreter.ExecIf | kernel/kronk.c:245-260 | IF does what the branch read from the text does |
| Kronk.Interpreter.ExecLine | kernel/kronk.c:162-263 | executing the text of a line has the result and the effect of executing the statement it parses to, or sets the flag |
| KronkLines.KeywordFound | kernel/kronk.c:144-150 | a keyword is found exactly where its letters stand, each in either case |
| KronkLines.LetLine | kernel/kronk.c:169-180 | the line LET X=e gives X the value of e and changes no other variable; without a value it is an error |
| KronkLines.PrintLine | kernel/kronk.c:216-234 | a PRINT line shows quotations as they are and expressions as numbers, with a space for each comma and a new line at the end; it is an error if one has no value |
| KronkLines.IfLine | kernel/kronk.c:245-260 | the line IF a < b THEN n, and likewise for the other five comparisons, goes to the first line n if the values compare so, and on if they do not; it is an error if there is no line n |
| KronkLines.GotoLine | kernel/kronk.c:236-243 | GOTO goes to the first line of that number, or is an error if there is none |
| KronkLines.InputLine | kernel/kronk.c:196-214 | INPUT shows a prompt and what is typed, and gives the variable the number that was typed |
| KronkLines.PlainLines | kernel/kronk.c:166-194 | END stops, REM does nothing, and KRONK sets every variable to zero and says so |
| KronkLines.WrongLine | kernel/kronk.c:162-263 | a line that begins with the letter of no keyword, or is empty, is an error |
| Kronk.Interpreter.RunProgram | kernel/kronk.c:325-348 | running a program by re-reading each line ends as running the program read once does: same outcome, same variables, same output, same line blamed |
| KronkLines.RunIsTrail | kernel/kronk.c:325-348 | a run is its lines executed one after the other, from the first, each where the one before has led, up to an END, the last line, an error or the step limit |
| Tasks.CreateSound | kernel/task.c:122-142 | creating a task keeps the ring and all waits sound |
| Tasks.SwitchSound | kernel/task.c:304-327 | switching tasks keeps them |
| Tasks.EndedSound | kernel/task.c:349-382 | ending a task and waking its parent keeps them |
| Tasks.ReapSound | kernel/task.c:390-416 | reaping a zombie child that has no children keeps them |
| Tasks.NextSound | kernel/task.c:304-457 | every step that can happen keeps them |
| Tasks.ExitAndWait | kernel/task.c:349-457 | over every run from boot: a task asleep in a wait has a child and no zombie child, or the one child it waits for is there and no zombie; every task is reaped at most once, by its creator; which code the creator gets is TaskEffects.Stories |
| TaskEffects.Stories | kernel/task.c:304-457 | over every run from boot every reaping has its story, told by the events: the parent created the task, later the task ended, by its own exit or by a kill, and later still the parent in a wait call got the very code named then |
| TaskEffects.ExitEffect | kernel/task.c:349-365 | what an exit does to each task: the one that exits is a zombie with its code, a BLOCKED parent is READY, and nobody else changes |
| TaskEffects.TerminateEffect | kernel/task.c:377-382 | terminating another task does to each task what its exit would |
| TaskEffects.CreateEffect | kernel/task.c:122-142 | a new task is READY, under the next id, right behind the running one, its parent; nobody else changes |
| TaskEffects.BlockEffect | kernel/task.c:333-337 | blocking changes the running task alone |
| TaskEffects.WakeEffect | kernel/task.c:339-341 | a BLOCKED task that is woken is READY, and nothing else changes |
| TaskEffects.WaitAnySleeps | kernel/task.c:429-457 | without a zombie child a wait for any child sleeps if there is a child, and is over if there is none |
| TaskEffects.WaitAnyReaps | kernel/task.c:429-457 | of the zombie children the first behind the running task is reaped: it is gone, with its id and code told |
| TaskEffects.WaitForEffect | kernel/task.c:390-416 | a wait for one child reaps it if it is a zombie, with its code, and sleeps if it is not |
| TaskEffects.NextRunner | kernel/task.c:304-327 | whoever yields, sleeps or ends is followed by the first READY task behind, or goes on if there is none; after any other event the same task runs |
| TaskEffects.TurnComes | kernel/task.c:304-327 | a READY task has its turn after at most as many switches as there are tasks before it |
| Tasks.SwitchMoves | kernel/task.c:304-327 | a switch that does not reach a READY task brings it closer |
| Tasks.BoundedWaiting | kernel/task.c:304-327 | a READY task in a ring of n runs after at most n - 1 switches, and one more for each task created meanwhile |
| Tasks.OnlyReadyRun | kernel/task.c:304-327 | nobody BLOCKED or ended is ever switched to |
| Scheduler.TaskList.constructor | kernel/task.c:100-120 | one READY task linked to itself |
| Scheduler.TaskList.Create | kernel/task.c:122-142 | a READY task with the next id, linked in behind the running one, its parent; links stay one circle in both directions |
| Scheduler.TaskList.Schedule | kernel/task.c:304-327 | the next READY task of the circle runs, or the running one goes on if there is none |
| Scheduler.TaskList.Block | kernel/task.c:333-337 | the running task is BLOCKED and another takes over, all others as they were |
| Scheduler.TaskList.Unblock | kernel/task.c:339-341 | a BLOCKED task becomes READY; any other is left |
| Scheduler.TaskList.ExitCurrent | kernel/task.c:349-365 | the running task becomes a zombie holding the code it exits with, its parent is woken, and another task runs |
| Scheduler.TaskList.ForceTerminate | kernel/task.c:377-382 | the task becomes a zombie holding the code; another one in place, or by exiting if it is the running one |
| Scheduler.TaskList.Reap | kernel/task.c:393-404 | unlinks the child and returns its code |
| Scheduler.TaskList.WaitAny | kernel/task.c:429-457 | once around the loop: reaps the first zombie child in ring order with its own id and code, or returns -1 exactly when there is no child, or sleeps |
| Scheduler.TaskList.WaitFor | kernel/task.c:390-416 | once around the loop: reaps the child if it is a zombie, else sleeps |
| Scheduler.TaskList.WakeId | kernel/task.c:339-341 | waking a task by its id keeps everything that holds of the list |
| Scheduler.TaskList.Run | kernel/task.c:304-457 | any run of events that can happen, carried out on the linked records, is the run of the transition system |
| Scheduler.BootAndRun | kernel/task.c:100-457 | the linked records, from boot through any such run, are in the state that Tasks.ExitAndWait is about, and every reaping they have made has its story in the events |
| Mutexes.MutexRecord.LockSection | kernel/mutex.c:28-46 | takes the mutex exactly if it is free; else the task is put last in the queue if that holds fewer than sixteen |
| Mutexes.MutexRecord.TryLock | kernel/mutex.c:57-66 | takes the mutex exactly if it is free |
| Mutexes.MutexRecord.UnlockSection | kernel/mutex.c:68-82 | frees the mutex and takes the first task off the queue, to be woken; the others move up in place |
| Mutexes.NextSound | kernel/mutex.c:28-87 | every step of every task keeps: the mutex is held exactly by the one task inside, and what that task read is still the counter |
| Mutexes.NoLostUpdates | kernel/shell.c:219-232 | for any number of tasks, any interleaving and any wake-ups, at most one task is inside, and with nobody inside the counter is the number of completed increments |
| Mutexes.ExactTotal | kernel/shell.c:207-232 | when all tasks have finished the counter is the sum of the times they had to count |
| Mutexes.CountingTest.Step | kernel/shell.c:219-232 | one step of a counting task on the mutex record, or a wake-up, is that step of the transition system |
| Mutexes.CountUnderMutex | kernel/shell.c:219-262 | the test on the mutex record, from its start through any interleaving and wake-ups: never two tasks inside, and once all have finished the counter is the sum of what they had to count |
| MutexProgress.CanFinish | kernel/mutex.c:28-87 | from the start, whatever the tasks have to count, there is a run after which all have finished and each has counted that often |
| MutexProgress.NeverStuck | kernel/mutex.c:28-87 | no run is stuck in which whoever goes to sleep finds room in the queue and whoever is woken is asleep: while not all have finished, somebody is awake to go on |
| MutexProgress.LostWakeUp | kernel/mutex.c:45-86 | two tasks that count once each, on the mutex record: the wake-up comes before the sleep, and then the mutex is free, the second task sleeps, and no step of anybody changes anything |

## Left out

- Hardware: ATA, PCI, VBE, PIC, PIT, serial, keyboard and mouse, TLB and control-register writes, descriptor tables, `context_switch` and the boot code. ATA is an array of sectors.
- Kernel-page mappings for the framebuffer (`paging_map_kernel_page`, `kernel/paging.c:160-180`): tables shared with the kernel would be torn down with the first process.
- Processes.ProcessTable.Run: ends at an operation for which frames or a reference count do not suffice where the code does not check, and at an exec or run of a file that is not contained.
- Conservation.Conserved: starts from processes that share no page; where two of them do, a store by one copies the page for good, and the free frames depend on that.
- Processes.ProcessTable.Exec: like Spawn not followed for files that are not contained, whose programs depend on the memory that follows; starts from the file's bytes; looking the file up on the volume and the kmalloc buffer (never freed by the code) are not composed with it.
- Kernel.Machine.Perform: the tasks without an address space of their own that the shell also creates, and files left open by a task, are not part of it; in wait calls each turn of the loop is one call; an exit code for an address in the kernel's half is not followed, because the store would go to the kernel's own memory.
- Elf.ElfLoad: what lies after a file in memory is a part of its input; where the input ends as well, a fixed byte stands for the next one, which no result about contained files depends on. A load that reads what it has itself written is not modelled.
- The saved register frame of fork and exec, arguments, and all system calls other than fork, exec, wait and exit.
- Kernel heap frames inside the frame accounting: they appear as references held from outside the page tables; when the heap grows is up to the run, and not tied to the kmalloc calls of fork, exec and spawn.
- Heap.Heap.Kmalloc: the branch of heap_extend that runs out of frames (`kernel/heap.c:34-37`) is not modelled, because kmalloc then writes to unmapped memory.
- FatSystem.FileSystem.Write: covers ASCII names only; a name whose first byte is 0xE5 would vanish when written.
- FatSystem.FileSystem.Read: like Write and Delete it works on a mounted volume; the early return of each call on an unmounted one is not modelled.
- `fat16_list_root` beyond the formatting of one name; timestamps, reserved bytes, subdirectories, long names.
- Kronk.Interpreter.RunProgram: what is printed and left in the variables by a line that fails is not described; splitting the file into numbered lines and the editing of INPUT lines are not modelled.
- Kronk.Interpreter.PrintInt: builds the digits as a text that grows to the left; PrintedFits shows the fixed buffer is long enough.
- Scheduler.TaskList.Reap: the kfree calls are not part of it; Kernel.Machine.Await joins it with the release of the address space.
- Scheduler.TaskList.WaitAny: one turn of the loop; the turns of one call are joined in the runs of Tasks.ExitAndWait.
- Wait calls with interrupts enabled, half-built tasks and orphaned children: outside the single-step model. Input queues and output redirection of tasks.
- Mutexes.NoLostUpdates: safety; that every task finishes under a fair scheduler is not claimed, and MutexProgress.LostWakeUp shows that it need not.
- Desktop, editor, snake, console, fonts and drawing.
