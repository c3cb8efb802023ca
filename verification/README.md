# Eclipse_OS: a verified model

Eclipse_OS is a small i386 kernel with its own C library. This project models its memory management, its processes,
its scheduler, its files and its user-level allocator in Dafny, and proves what they are for: that every physical frame
is free or has one owner after any sequence of system calls, that address spaces are isolated, that an exit is reported
once and to the right process, that whatever a program holds on its heap stays apart and intact, and that what is written
(archives, numbers, formats, ELF images) is read back.

The code is modelled in its own form. Objects the source updates in place are classes whose methods follow the source's
statements and loops; each is proved against a function or relation on values, and the properties are then proved about
those values. Nothing here was executed.

## How it is built

From the bottom up:

* `Bits`, `Pmm`: the frame bitmap and the hinted allocator.
* `Words`, `Address`, `Paging`, `Mapping`, `Directories`, `Machine`: directory and table entries, the two-level walk
  (Intel SDM Vol. 3A, section 4.3), the recursive window through which the kernel edits them, and the ownership
  invariant `Paging.Inv`: every frame is the kernel's, a live directory, the table of one directory entry, or the page of
  one table entry, and whatever owns it refers to it. `Machine` accesses memory only through virtual addresses.
* `Steps`: memory management as a transition system. Ten elementary steps (a frame taken or given back, a table made, an
  entry written or cleared, a directory opened or retired), each with a guard that looks only at what it touches; every
  step keeps `Paging.Inv`, and with it that the allocator's free frames are all frames without an owner. Every operation
  on memory proves that it is a sequence of such steps aimed at its own directories (`Steps.Reach`).
* `UserSpace`, `UserMap`, `Spaces`: what user mode sees through a directory, as a map from addresses to bytes (`Image`),
  and what an operation on one space leaves alone in all others (`OnlySpace`, `Elsewhere`), which
  `Spaces.ReachElsewhere` derives from the steps alone.
* `ForkSteps`, `Fork`, `Sbrk`, `ElfFormat`, `Elf`, `Exec`, `UserAccess`: the address-space halves of the system calls.
* `ElfMeaning`: what an ELF file says its process image is, told from the bytes of the file with definitions of its own,
  and that a loaded program is that image (`ElfMeaning.ProgramMeans`).
* `Scheduler`: the ring of tasks and its progress measure.
* `Table`, `Lifecycle`, `Processes`: the process table and the open-file pool on values; whole runs with a log, in which
  the slot scan of `process_wait` is split into its steps; and the same table in place. `CallLaws` says field by field
  what each call promises of the table; the methods in `Processes` and `Kernel` ensure it.
* `Deliveries`: what reaches a process over whole runs of the machine: the code a child gave to exit, in the four bytes
  its parent's wait points at, and the bytes of the file that was opened, in the buffer of a read.
* `World`, `Runs`, `Kernel`, `Boot`: everything together. `World.WorldInv` ties directories, tasks, descriptors, saved
  CR3 values and wait pointers to the process table. `Runs.Effect` says what each of the sixteen operations does, without
  the invariant; `Runs.EffectKeeps` proves that it keeps the invariant and that no other process notices, and
  `Runs.Isolation`, `Runs.KernelFrames`, `Runs.KernelMapped` and `Runs.Ownership` follow for every sequence of
  operations from a good state, and so does progress: `Runs.GetsCpu`, `Runs.NobodyStarves`.
  Every method of `Kernel.Kernel` is one system call, or the last step of `kernel_main`; it proves its effect and
  appends it to the kernel's history, so the theorems about runs hold of a kernel after any calls
  (`Kernel.Kernel.FrameOwned`, `BystanderIntact`, `ReadInOrder`, `ExitReported`). `Boot` starts from a memory map and
  ends with process 0 running the init program. `Errno` has the error numbers.
* `Blocks`, `Malloc`: the user heap, first as a list of blocks, then as headers in the bytes it manages. Between calls
  `Malloc.Heap.Ready` holds: each pointer the program holds is served by a block at least as large as requested, which
  shows the bytes the program left there, and every used block is held. Each operation states the whole map of held
  pointers and the whole block list afterwards.
* `UserHeap`: the two sides together. `UserHeap.SbrkServes` shows that the system call is the `sbrk` that malloc relies on,
  and `UserHeap.HeapIntact` that a process's heap stays intact over runs of the machine.
* `Numbers`, `Printf`, `Initrd`, `Reads`: number and format printing, `strtol`, and the ustar reader.

System calls are atomic, because the gate is an interrupt gate; the exceptions are the yields, and the scan of
`process_wait`, which runs with interrupts on after its first yield (`kernel/arch/i386/task_switch.S:23-27`). A context
switch is modelled by its effect: the running task and CR3 change. There is no TLB.

## Hypotheses

The code relies on these, and they are preconditions here:

* Enough free frames at the allocations that are not checked: the page tables of `paging_map`
  (`kernel/arch/i386/paging.c:35`), the scratch table of the first `paging_new_directory`, the stack pages of `execve`
  (`kernel/arch/i386/process.c:289`). They are stated exactly, page by page, by `UserMap.TablesHold` and `UserMap.Left`; at
  boot, loading the init program must not leave exactly one frame (`Exec.LoadSupply`).
* The init program fits the kernel heap: `load_program` does not check what `kmalloc` returns
  (`kernel/kernel/kernel.c:68-69`).
* Loadable segments lie in user space between 4 MiB and 0xB0000000, on distinct pages, with `p_filesz <= p_memsz`; the
  relocation table is readable, its entries are at least 8 bytes apart, and its relative targets are distinct words
  outside the table (`ElfFormat.Loadable`).
* `sbrk` never takes the break below the start of the heap. For `malloc`, requests are at most 0x7FFFEFF0 bytes, which is
  exactly where `grow` stops asking for enough (`Malloc.GrowthIff`), and the heap stays below 2 GiB, since `sbrk` returns
  the break through `int`.
* Files in the ram disk are at most 1 GiB long, so that offset plus length stays below 2^32 in `sys_read`.
* The memory map describes addresses below 0xFFFFF000, and what the boot loader and the kernel occupy lies inside it.
* Pids do not overflow.

## Where the code does not do what one might expect

Each of these has an exact condition and an input on which it fails.

* Growing the break and shrinking it again need not restore the mappings: `Sbrk.GrowThenShrink` gives the condition.
  `Sbrk.GrowthNotUndone` runs into a state that fails it: a growth that ran out of frames leaves pages above the break,
  and the next page up and down again unmaps one. With a heap that is mapped up to its break, which `sbrk` keeps
  (`Sbrk.HeapStaysWhole`), pages above the break are the only obstacle (`Sbrk.GrowThenShrinkWhole`).
* `initrd_read` leaves its file when offset plus size wraps around: `Initrd.InBoundsIff`, and `Initrd.ReadLeavesFile` with
  the arguments. `sys_read` never passes such arguments for files of at most 1 GiB, because it checks the buffer first
  (`Kernel.ReadReady`).
* `strtol` treats a bare "0x" as no number at all, and wraps instead of clamping: `Numbers.EndConformsIff`,
  `Numbers.ValueConformsIff`, and `Numbers.StrtolDeparts` with two texts.
* `malloc`'s rounding wraps to 0 for the seven largest requests: `Blocks.Round8Iff`, `Blocks.Round8Wraps`, and
  `Blocks.WrappedRequest` says what is handed out then. Above 0x7FFFEFF0 bytes `grow` no longer asks for enough, and may
  even shrink the heap: `Malloc.GrowthIff`, `Malloc.ShrinkingRequest`.
* `pmm_initialize` frees frames that stick out of a memory-map entry unless the entry is page-aligned:
  `Pmm.WholeFramesIff`, and `Pmm.FrameSticksOut` with an entry.
* `execve` does not clear the pages of the new stack: each byte is the one its frame held (`Exec.MapStack`), so the stack
  reads zero exactly when those frames were zero (`Exec.StackZeroIff`). `Exec.StackBefore` names the frames and the bytes in
  terms of the state before the call; `Exec.StackNotCleared` boots a machine and runs into a stack that is not zero.
* A `fork` that runs out of memory spends a pid, and one refused for lack of a slot or a kernel stack does not:
  `Kernel.Kernel.Fork`. `Kernel.Kernel.ForkSpendsPid` is that fork on any kernel with a slot and a stack to spare, and
  `Boot.LaunchAndFork` a machine on which the init program's first fork is one.

Two results are read back from contracts: `UserSpace.MappingLaw` is a consequence of what `Machine.Machine.PagingMap`
ensures, and `UserSpace.KernelAgreement` of the invariant; the proofs behind them are those of `PagingMap` and of the
`Paging.Add...KeepsInv` lemmas.

## Model

| member | source | states |
|---|---|---|
| Bits.SetAndClear | kernel/arch/i386/pmm.c:16-18 | setting bit k of a 32-bit word sets it and no other; clearing it clears it and no other |
| Pmm.WholeFramesIff | kernel/arch/i386/pmm.c:50-55 | every frame freed for a memory-map entry lies wholly inside the entry exactly when its base and length are page-aligned |
| Pmm.FrameSticksOut | kernel/arch/i386/pmm.c:50-55 | an entry of 0x9FC00 bytes at 0, whose last freed frame reaches past its end |
| Pmm.TouchesIff | kernel/arch/i386/pmm.c:67-81 | the frames reserved for a byte range are exactly those that share a byte with it |
| Pmm.FrameAllocator.constructor | kernel/arch/i386/pmm.c:22-91 | after the three passes a frame is free exactly when stepping through an available entry page by page comes to it and it holds no byte of the first MiB, of the kernel and its bitmap, of a module, or of the list of modules; frame 0 never is |
| Pmm.FrameAllocator.AllocFrame | kernel/arch/i386/pmm.c:97-114 | returns the lowest free frame and takes it; 0 exactly when none is free; everything below the hint is used, so the wrap-around scan never finds one |
| Pmm.FrameAllocator.FreeFrame | kernel/arch/i386/pmm.c:116-121 | the frame is free again and the hint invariant holds |
| Pmm.FrameAllocator.FreeFrameCount | kernel/arch/i386/pmm.c:123-129 | the count is the size of the abstract free set |
| Words.EncodeDecode | kernel/include/kernel/paging.h:7-9 | an entry written as a 32-bit word reads back as the same entry |
| Words.DecodeEncode | kernel/include/kernel/paging.h:7-9 | a 32-bit word read as an entry is written back as the same word |
| Words.EntryBits | kernel/include/kernel/paging.h:7-9 | in the 32-bit word of an entry, bits 0, 1 and 2 are present, write and user, and the upper 20 bits the frame |
| Words.GetSetByte | kernel/include/kernel/paging.h:7-9 | storing one byte of a word changes that byte and no other |
| Address.DirectoryWindow | kernel/include/kernel/paging.h:11 | with entry 1023 pointing at the directory itself, the walk of PD_VIRT + 4d ends at word d of that directory |
| Address.TableWindow | kernel/include/kernel/paging.h:12 | and the walk of PT_VIRT(d) + 4t ends at word t of the table behind entry d |
| Machine.BootMemory | kernel/arch/i386/paging.c:11-24 | the loops of paging_initialize leave 1022 absent writable entries, the identity table and the self-reference, and touch no other frame |
| Machine.Machine.constructor | kernel/arch/i386/paging.c:11-24 | the boot state satisfies the ownership invariant, with one live directory; the first 4 MiB are mapped onto themselves, for the kernel only |
| Machine.Machine.PagingMap | kernel/arch/i386/paging.c:30-46 | the stores through the recursive window amount to one new leaf in one directory (or one shared kernel leaf), plus a table owned by its entry when there was none; the invariant is kept |
| Machine.Machine.PagingUnmap | kernel/arch/i386/paging.c:48-54 | exactly one leaf disappears and its frame is back in hand |
| Machine.Machine.PagingVirtToPhys | kernel/arch/i386/paging.c:56-68 | the physical address of the hardware walk, or 0xFFFFFFFF exactly when the address is not mapped |
| Machine.Machine.PagingIsUser | kernel/arch/i386/paging.c:70-79 | true exactly when both levels are present and user-accessible |
| Machine.Machine.NewDirectory | kernel/arch/i386/paging.c:91-105 | a directory with an empty user half and the shared kernel half, in a frame that was free; 0 exactly when no frame was free, and then nothing but frame 0 and the scratch slot changed |
| Machine.Machine.FreeDirectory | kernel/arch/i386/paging.c:117-140 | the frames that become free are exactly those the directory held: its pages, its tables, itself; no other address space changed |
| Paging.AddTableKeepsInv | kernel/arch/i386/paging.c:34-40 | a fresh page table keeps one-owner-per-frame |
| Paging.AddLeafKeepsInv | kernel/arch/i386/paging.c:42-43 | so does a leaf over an absent entry |
| Paging.RemoveLeafKeepsInv | kernel/arch/i386/paging.c:48-54 | so does removing a leaf |
| Paging.AddDirectoryKeepsInv | kernel/arch/i386/paging.c:97-102 | so does a new directory that copies entries 0 and 768..1022 and refers to itself |
| Paging.RetireKeepsInv | kernel/arch/i386/paging.c:117-140 | so does taking a directory out of service |
| Steps.StepKeeps | kernel/arch/i386/paging.c:11-140 | each of the ten elementary steps of memory management keeps one owner per frame and the free frames equal to the frames without an owner, and leaves every directory it is not aimed at untouched |
| Steps.ReachKeeps | kernel/arch/i386/paging.c:11-140 | so does any sequence of them |
| Spaces.ReachElsewhere | kernel/arch/i386/paging.c:11-140 | a sequence of steps aimed at some directories changes no byte that user mode sees through any other |
| UserSpace.MappingLaw | kernel/arch/i386/paging.c:30-46 | read back from the contract of paging_map: every address outside the recursive window translates as before in every directory, unless it lies on the mapped page of the mapped directory; user reachability of all other pages is unchanged |
| UserSpace.KernelAgreement | kernel/arch/i386/paging.c:97-102 | read back from the invariant: kernel addresses translate alike in all live directories |
| UserSpace.WritesIff | kernel/arch/i386/paging.c:30-78 | user mode may store exactly where it may load, both levels tested |
| Steps.ReachKernelHalf | kernel/arch/i386/paging.c:11-140 | no sequence of elementary steps moves a kernel mapping outside the scratch slots |
| UserSpace.UserIsolation | kernel/arch/i386/paging.c:30-79 | whatever user mode reaches is a page owned by that directory at that one address; two reachable pages share a frame only if they are the same page of the same directory |
| Fork.CopyUserPages | kernel/arch/i386/process.c:163-191 | phase 1 succeeds exactly when the user pages number at most 1024 and at most the free frames; the list then names every user page once |
| Fork.InstallCopies | kernel/arch/i386/process.c:193-202 | phase 2 installs every listed copy in the child and returns to the parent, whatever the order of directory entries |
| Fork.ForkSpace | kernel/arch/i386/process.c:157-202 | the child directory exists exactly when the pages fit; it then maps exactly the parent's user pages with the same bytes and flags in frames of its own; otherwise owners, free frames and user pages are as before but for the one-time scratch table |
| ForkSteps.ForkDone | kernel/arch/i386/process.c:163-202 | the two phases together give every child entry the flags and contents of the parent's entry, in a frame nobody owned before |
| ForkSteps.ForkUndone | kernel/arch/i386/process.c:232-238 | the out-of-slots path gives back exactly what was taken |
| Spaces.ForkedElsewhere | kernel/arch/i386/process.c:157-202 | after fork the child shows user mode the parent's bytes and no other address space changed |
| Spaces.ForkIsolates | kernel/arch/i386/process.c:163-202 | a store through either directory after fork changes its own image and leaves the other's alone |
| Sbrk.SysSbrk | kernel/arch/i386/syscall.c:140-194 | growth maps exactly the absent pages up to the new break, writable for user mode and zero; it fails exactly when the frames do not suffice, and then keeps the break and a prefix of the growth; shrinking unmaps exactly the pages wholly above the new break; refusals change nothing |
| Sbrk.MapRange | kernel/arch/i386/syscall.c:158-168 | the growing loop: every page in range ends up mapped, those that were absent writable and zero, nothing else moves; it stops early exactly when the frames do not suffice |
| Sbrk.UnmapRange | kernel/arch/i386/syscall.c:181-190 | the shrinking loop: no page of the range stays mapped, every byte below is unchanged |
| Sbrk.GrowThenShrink | kernel/arch/i386/syscall.c:140-194 | growing and shrinking by the same amount restores the leaf mappings exactly when no page wholly above the old break was mapped and the page the break falls inside, if any, was |
| Sbrk.HeapStaysWhole | kernel/arch/i386/syscall.c:140-194 | however a call ends, a heap that was mapped up to its break is mapped up to its new break |
| Sbrk.GrowThenShrinkWhole | kernel/arch/i386/syscall.c:140-194 | with such a heap, the mappings come back exactly when no page wholly above the old break was mapped |
| Sbrk.GrowthNotUndone | kernel/arch/i386/syscall.c:158-190 | after a growth that ran out of frames, growing by a page and shrinking by a page does not bring the mappings back |
| Sbrk.SbrkMeans | kernel/arch/i386/syscall.c:140-194 | what the program can tell: the answer is the old break and the break moves by the increment, or it is -ENOMEM or -EINVAL and the break stays; it sees every byte up to the new break, reads what it read before and zero where nothing was |
| Sbrk.EnoughFrames | kernel/arch/i386/syscall.c:158-168 | with two free frames for every page of the range, a growth within the limit is not refused |
| Sbrk.RestoredFrames | kernel/arch/i386/syscall.c:140-194 | when the leaf mappings are restored so are the owners of all frames, page tables of that directory apart |
| Elf.ElfLoad | kernel/arch/i386/elf.c:57-100 | on success the image in memory is the program the file describes, the entry and the break are those of the file; it fails exactly on a rejected header or too few frames, and then nothing outside the current space changed |
| Elf.RelocateWords | kernel/arch/i386/elf.c:28-52 | the relocation loop adds the base once to every word a relative entry names and leaves every other byte alone |
| ElfMeaning.AcceptsIff | kernel/arch/i386/elf.c:62-67 | told from the bytes of the file: the header is taken exactly if it is that of a 32-bit i386 ELF file, executable or shared |
| ElfMeaning.ProgramMeans | kernel/arch/i386/elf.c:7-100 | told from the bytes of the file: on the pages of each type-1 header a loaded program holds the file bytes and zeros; if the last type-2 header has a dynamic section, the base is added modulo 2^32 to each word named by an entry with type 8 in the low byte of its second word, of the table that the last entries with tags 17, 18 and 19 announce; every other byte stays |
| ElfMeaning.EntryByte | kernel/arch/i386/elf.c:99 | execution starts at the byte that the file has for its entry point |
| ElfMeaning.BreakMeans | kernel/arch/i386/elf.c:75-79 | the break is the highest page-rounded end of a type-1 header |
| ElfFormat.ProgramExact | kernel/arch/i386/elf.c:71-92 | on the pages of every PT_LOAD segment a loaded program reads the file byte below p_filesz and zero beyond, outside the relocated words |
| ElfFormat.ProgramRelocated | kernel/arch/i386/elf.c:31-38 | each R_386_RELATIVE target holds its original value plus the base modulo 2^32 |
| ElfFormat.RelocatedWord | kernel/arch/i386/elf.c:31-38 | relocating distinct words one after the other relocates each exactly once |
| ElfFormat.HighestCovers | kernel/arch/i386/elf.c:75-79 | the break is at or above the end of every segment |
| ElfFormat.HighestAligned | kernel/arch/i386/elf.c:75-79 | the break is page-aligned and is the end of some segment |
| Exec.ExecLoad | kernel/arch/i386/process.c:254-270 | the new space is built while the old one is whole; on any failure owners, free frames and user pages are as before but for the one-time scratch table |
| Exec.ExecSpace | kernel/arch/i386/process.c:254-292 | succeeds exactly when there is a frame, the header is accepted, the pages fit and the entry is not 0; then the new directory holds the program and an uncleared stack, the old one is gone unless it is the boot directory, every other space is untouched |
| Exec.MapStack | kernel/arch/i386/process.c:286-292 | four pages appear below the stack top, the program below them unchanged; their frames are the lowest free ones in turn, and each byte is the one its frame held |
| Exec.StackZeroIff | kernel/arch/i386/process.c:286-292 | the new stack reads zero exactly when each of its frames was zero |
| Exec.StackBefore | kernel/arch/i386/process.c:254-292 | told from the state before the call: the frames of the new stack are four different ones that were free or that the old program held, and the stack shows what they held then, the page of the old directory itself apart |
| Exec.StackNotCleared | kernel/arch/i386/process.c:254-292 | an execve on a booted machine after which the stack does not read zero |
| Exec.MapUserStack | kernel/kernel/kernel.c:52-61 | four pages from the lowest up, with the panic exactly when the frames do not suffice |
| Exec.LoadFirst | kernel/kernel/kernel.c:63-81 | the boot directory shows the program and a stack, no other space changes; it cannot panic for an accepted file with frames to spare |
| Exec.ExecUndone | kernel/arch/i386/process.c:266-270 | loading and freeing again gives back exactly what was there |
| UserAccess.UserRangeOk | kernel/arch/i386/syscall.c:17-28 | true exactly when every byte of the range is within reach of user mode, overflow included |
| UserAccess.ReachLaw | kernel/arch/i386/syscall.c:17-28 | a range is in reach exactly when its parts are, and a single byte when user mode can read it |
| UserAccess.StringStored | kernel/arch/i386/syscall.c:30-38 | bytes other than NUL followed by a NUL are the string at their address, and there is no other |
| UserAccess.UserString | kernel/arch/i386/syscall.c:30-38 | finds the terminated string within 256 bytes of reachable memory, and fails only if there is none |
| Scheduler.AfterSound | kernel/arch/i386/task.c:36-67 | each way the ring moves keeps one cycle through main_task and changes its members only as named |
| Scheduler.DistanceLaw | kernel/arch/i386/task.c:36-67 | a yield brings a waiting task one closer, an addition sets it back by one, a departure leaves it where it is |
| Scheduler.Progress | kernel/arch/i386/task.c:36-67 | a task at distance d runs within d yields plus one for each task added meanwhile |
| Scheduler.Ring.Yield | kernel/arch/i386/task.c:36-48 | following the link is the rotation; a task that left still leads into the ring |
| Scheduler.Ring.TaskAdd | kernel/arch/i386/task.c:54-57 | the task goes right behind the running one |
| Scheduler.Ring.TaskRemove | kernel/arch/i386/task.c:59-67 | the walk ends, for a task in the ring or not, and takes out that task only |
| CallLaws.NextLaw | kernel/arch/i386/process.c:146-389 | what each system call does to the process table and the pool, field by field: the slot of the child, the zombie and its code, the orphans, the descriptor and its entry, the offset, the break; and what it leaves alone |
| CallLaws.ReapedCode | kernel/arch/i386/process.c:304-389 | in any run from boot, the code a reap reports is the one that the reaped process gave to exit |
| CallLaws.ForkMakesChild | kernel/arch/i386/process.c:146-230 | the process in the slot fork took is a child of the caller |
| CallLaws.ExitLeavesZombie | kernel/arch/i386/process.c:304-331 | exit leaves a zombie with its code, a child of the same parent as before |
| CallLaws.ZombieFound | kernel/arch/i386/process.c:358-388 | a scan that is not interrupted takes the first zombie child that lies ahead of it |
| Deliveries.WaitDelivers | kernel/arch/i386/process.c:304-389 | in any run from boot, a process that is given a zombie had called wait, the zombie had called exit, and the 32-bit code given to exit is stored where the pointer given to wait points, and nowhere else |
| Deliveries.ReadDelivers | kernel/arch/i386/syscall.c:75-117 | in any run from boot, the bytes a read stores are those of the file that was opened on the entry behind its descriptor, from where the reads through that entry since then have left off |
| Table.FirstHasChild | kernel/arch/i386/process.c:319-331 | as long as any process but the first exists, the first has a child |
| Table.ForkedKeeps | kernel/arch/i386/process.c:146-230 | fork keeps unique pids, an older running parent for every process, and the reference counts |
| Table.ExitedKeeps | kernel/arch/i386/process.c:304-331 | so does exit, with its release of descriptors and its reparenting |
| Table.ReapedKeeps | kernel/arch/i386/process.c:355-381 | so does reaping a zombie |
| Table.InUseIff | kernel/arch/i386/process.c:45-65 | a pool entry counts zero exactly when no descriptor of any process points at it |
| Table.OpenedKeeps | kernel/arch/i386/syscall.c:91-117 | open keeps the counts equal to the descriptors |
| Table.ClosedKeeps | kernel/arch/i386/syscall.c:119-131 | so does close |
| Processes.KernelHeap.Kmalloc | kernel/arch/i386/kheap.c:18-25 | the next bytes of the heap, or 0 exactly when they would pass its end |
| Processes.KernelHeap.KmallocAligned | kernel/arch/i386/kheap.c:18-30 | memory nobody was given before, or 0 exactly when the heap end would be passed |
| Processes.ProcessTable.constructor | kernel/arch/i386/process.c:69-90 | process 0 runs alone, nothing is open |
| Processes.ProcessTable.OpenFileAlloc | kernel/arch/i386/process.c:45-55 | the lowest entry nobody refers to |
| Processes.ProcessTable.BeginFork | kernel/arch/i386/process.c:111-155 | the lowest free slot and the next pid; refused exactly when no slot is free or the kernel heap is used up |
| Processes.ProcessTable.FinishFork | kernel/arch/i386/process.c:204-209 | the child shares every descriptor, each count raised to the number of descriptors |
| Processes.ProcessTable.Exit | kernel/arch/i386/process.c:319-330 | the slot is a zombie with the code given to exit and no descriptors, all children belong to process 0, everything else in the table is as before |
| Processes.ProcessTable.ReleaseDescriptors | kernel/arch/i386/process.c:319-322 | after the loop each count is the number of descriptors that remain, and entries without any are cleared |
| Processes.ProcessTable.WaitLook | kernel/arch/i386/process.c:361-386 | one look of the scan; it ends without a child exactly when the caller has none at that moment |
| Processes.ProcessTable.WaitTake | kernel/arch/i386/process.c:370-381 | the zombie child's pid and code, and the slot is free |
| Processes.ProcessTable.Open | kernel/arch/i386/syscall.c:102-116 | the descriptor gets the lowest entry nobody refers to, which stands at the start of the file asked for; refused exactly when the pool is full |
| Processes.ProcessTable.FreeDescriptor | kernel/arch/i386/syscall.c:102-108 | the lowest free descriptor from 3 on, or none exactly when all are taken |
| Processes.ProcessTable.Close | kernel/arch/i386/syscall.c:119-131 | the descriptor leads nowhere and the count of its entry is one less; the entry is cleared with the last |
| Lifecycle.NextPcs | kernel/arch/i386/process.c:355-389 | whatever other processes do between two looks of a scan: if the caller of a scan that has seen no child has a child, some child lies ahead of the scan; a zombie about to be taken is still there |
| Lifecycle.ChildlessIff | kernel/arch/i386/process.c:384-385 | the scan reports no child exactly when there is none, however it was preempted |
| Lifecycle.NextKeeps | kernel/arch/i386/process.c:146-389 | every system call step keeps the invariant of the process table, the pool, the scans and the log |
| Lifecycle.RunKeeps | kernel/arch/i386/process.c:146-389 | so does every run |
| Lifecycle.ExitReports | kernel/arch/i386/process.c:304-389 | in any run from boot a pid is reaped at most once, after its exit, with the code of that exit, by the process that forked it or, if that one has exited, by process 0; process 0 never exits |
| Lifecycle.ReadsPartition | kernel/arch/i386/syscall.c:75-89 | in any run from boot the bytes read through an open entry, by whichever processes share it, are exactly the first offset bytes of its file; an entry is free exactly when no descriptor refers to it |
| World.ForkStep | kernel/arch/i386/process.c:146-230 | after fork each running process again lives in a directory of its own and the ring holds exactly the running tasks |
| World.ExecStep | kernel/arch/i386/process.c:243-292 | the same after execve |
| World.ExitStep | kernel/arch/i386/process.c:304-345 | the same after exit |
| World.YieldStep | kernel/arch/i386/task.c:36-48 | yield switches to the directory of the next task and changes nothing else |
| Runs.EffectKeeps | kernel/arch/i386/process.c:146-389 | each of the sixteen operations keeps the invariant of the whole machine, and no other process notices it: its bytes, break, descriptors and place stay |
| Runs.Isolation | kernel/arch/i386/process.c:146-389 | over any sequence of operations from a good state, a process that does not act itself keeps every byte it sees, its break, its descriptors and its place in the kernel |
| Runs.KernelFrames | kernel/arch/i386/process.c:146-389 | over any such sequence the kernel holds the same frames, the scratch table apart |
| Runs.KernelMapped | kernel/arch/i386/paging.c:30-102 | over any such sequence every directory in use translates each kernel address outside the scratch slots as the boot directory did when the run began and shows user mode none of them; a process can write exactly what it can read |
| Runs.Ownership | kernel/arch/i386/process.c:146-389 | after any such sequence a frame is free and no directory refers to it, or it is the kernel's, or exactly one directory refers to it, at one place, and that is the directory of a running process or the boot directory |
| Runs.RunActs | kernel/arch/i386/process.c:146-389 | the process-table part of a run of the machine is a run of the process table, so what is proved of those holds of it |
| Runs.GetsCpu | kernel/arch/i386/task.c:36-67 | over any sequence of operations, a process waiting at distance d has the CPU within d yields plus one for each successful fork meanwhile |
| Runs.NobodyStarves | kernel/arch/i386/task.c:36-67 | in any sequence of operations with sixteen yields more than successful forks, every process that runs at its start has the CPU |
| Kernel.Kernel.constructor | kernel/arch/i386/process.c:69-90 | the boot state satisfies the whole-machine invariant |
| Kernel.Kernel.Yield | kernel/arch/i386/task.c:36-48 | one turn of the ring, with the address space switched to the next task's |
| Kernel.Kernel.Fork | kernel/arch/i386/process.c:146-239 | the next pid, for a child that shows the parent's bytes and has its break and descriptors; -EAGAIN exactly without a slot or a kernel stack; -ENOMEM only when the pages do not fit. A failed fork leaves every slot but the one it tried, the open files and the log as they were; it spends a pid exactly on -ENOMEM |
| Kernel.Kernel.ForkSucceeds | kernel/arch/i386/process.c:146-239 | with a slot, a kernel stack, at most 1024 pages and frames to spare, fork returns the next pid |
| Kernel.Kernel.ForkSpendsPid | kernel/arch/i386/process.c:146-239 | a fork with a slot and a stack but too few frames: -ENOMEM, everything undone, and the next pid is one higher |
| Kernel.Kernel.Exec | kernel/arch/i386/process.c:243-299 | 0 with the program in place, or -E2BIG, -ENOMEM, -ENOEXEC, each exactly in its case, with translations, frames, break and descriptors as before |
| Kernel.Kernel.Execve | kernel/arch/i386/syscall.c:196-204 | -EFAULT exactly without a string at the path, -ENOENT exactly when no file has that name, and otherwise what execve answers for the first file that has it |
| Kernel.Kernel.Exit | kernel/arch/i386/process.c:304-349 | the directory's frames are free, the caller is a zombie with the code it gave, the task has left the ring and the next one runs; process 0 halts instead |
| Kernel.Kernel.WaitStart | kernel/arch/i386/syscall.c:206-214 | the status pointer is checked once, and stays good until it is used |
| Kernel.Kernel.WaitLook | kernel/arch/i386/process.c:358-388 | one turn of the preemptible scan: on, an end without a child exactly when there is none, or a yield |
| Kernel.Kernel.WaitTake | kernel/arch/i386/process.c:370-381 | the zombie's pid, its code where the status pointer points, and its slot is free |
| Kernel.Kernel.UserStore | kernel/arch/i386/process.c:146-389 | a store by the program changes one byte of its own space, and no other process notices |
| Kernel.Kernel.Sbrk | kernel/arch/i386/syscall.c:140-194 | the answer, the break and the mappings of sbrk; nothing else in the process table changes, and no other process notices |
| Kernel.Kernel.Lookup | kernel/arch/i386/syscall.c:95-100 | -EFAULT exactly when no string lies there, -ENOENT when no file has that name, otherwise its node |
| Kernel.LookupMeans | kernel/arch/i386/syscall.c:95-100 | with a terminated name of less than 256 bytes at the path, the first file of that name, or -ENOENT exactly if there is none |
| Kernel.OpenMeans | kernel/arch/i386/syscall.c:102-113 | open finds the lowest free descriptor from 3 on and the lowest free entry; -EMFILE and -ENFILE exactly when there is none |
| Kernel.Kernel.OpenNode | kernel/arch/i386/syscall.c:102-116 | the lowest free descriptor from 3 on, pointing at the lowest free entry, which stands at the start of the file; or -EMFILE or -ENFILE, exactly when there is none, with nothing changed |
| Kernel.Kernel.Open | kernel/arch/i386/syscall.c:91-117 | -EFAULT and -ENOENT exactly in their cases, and otherwise the same for the first file of that name |
| Kernel.Kernel.Close | kernel/arch/i386/syscall.c:119-131 | 0, or -EBADF exactly when there is no such descriptor |
| Kernel.Kernel.Read | kernel/arch/i386/syscall.c:75-89 | the next bytes of the file are in the buffer and the shared offset is past them; -EBADF and -EFAULT exactly in their cases, with nothing changed |
| Kernel.Kernel.OpenThenRead | kernel/arch/i386/syscall.c:75-117 | an open followed by a read stores the head of the first file whose name lies at the path |
| Kernel.Kernel.LoadProgram | kernel/kernel/kernel.c:63-81 | the first file of that name is read into the kernel heap, loaded, and given its break and stack; it panics only without the file, for a rejected one, or for lack of frames |
| Kernel.Kernel.FrameOwned | kernel/arch/i386/process.c:146-389 | in a kernel after any calls, a frame that is not free is the kernel's or belongs to one live directory; a free one is referred to by none |
| Kernel.Kernel.BystanderIntact | kernel/arch/i386/process.c:146-389 | a process that has not acted since some moment has kept every byte it had then |
| Kernel.Kernel.ReadInOrder | kernel/arch/i386/syscall.c:75-89 | in a kernel after any calls, what was read through an open entry is the head of its file |
| Kernel.Kernel.ExitReported | kernel/arch/i386/process.c:304-389 | in a kernel after any calls, a reap in the log is the only one of its pid and reports the code that was given to exit |
| Boot.KheapInitialize | kernel/arch/i386/kheap.c:9-16 | every page of the kernel heap is backed by a kernel frame of its own and out of reach of user mode |
| Boot.StartMemory | kernel/kernel/kernel.c:97-100 | frame allocator, paging and kernel heap in turn establish the machine invariant; no frame of a boot module is free |
| Boot.Start | kernel/kernel/kernel.c:102-115 | ram disk, a kernel stack from the heap, and process 0 on top of it: a running kernel whose files are those of the archive |
| Boot.Launch | kernel/kernel/kernel.c:102-129 | process 0 runs the init program alone, with its break behind the program and its stack in place, in a kernel that keeps the invariant; with the file there, accepted, and frames for it and a stack, it does not panic |
| Boot.LaunchAndFork | kernel/kernel/kernel.c:102-129 | a machine whose init program runs out of memory in its first fork, and has spent pid 1 |
| Blocks.PayloadsApart | libc/stdlib/malloc.c:6-12 | payloads lie inside the sbrk range, are pairwise disjoint and apart from every header |
| Blocks.Round8Iff | libc/stdlib/malloc.c:64 | rounding a request up to a multiple of 8 covers it exactly when it is at most 2^32 - 8 |
| Blocks.Round8Wraps | libc/stdlib/malloc.c:64 | the seven larger ones round to 0 |
| Blocks.WrappedRequest | libc/stdlib/malloc.c:60-78 | what such a request gets: a block of fewer than 20 bytes, and none at all if the block it came from was larger |
| Blocks.FirstFitLowest | libc/stdlib/malloc.c:16-21 | the block found is the lowest-addressed free one that fits |
| Blocks.SplitKeeps | libc/stdlib/malloc.c:47-58 | split keeps the tiling of the whole range and leaves a block that is large enough |
| Blocks.MallocedKeeps | libc/stdlib/malloc.c:60-78 | malloc keeps the tiling and every live block, and hands out a live block that is large enough |
| Blocks.FreedKeeps | libc/stdlib/malloc.c:80-93 | free keeps the tiling and every other live block, and the block behind the freed one is not free |
| Blocks.StableFit | libc/stdlib/malloc.c:60-93 | malloc, free, malloc of one size finds the same block again without growth |
| Blocks.OverflowTest | libc/stdlib/malloc.c:95-98 | calloc's division test rejects exactly the products that reach 2^32 |
| Malloc.GrowthIff | libc/stdlib/malloc.c:23-29 | malloc covers a request and grow asks sbrk for enough exactly up to 0x7FFFEFF0 bytes |
| Malloc.ShrinkingRequest | libc/stdlib/malloc.c:23-29 | a request for which grow gives a page back |
| Malloc.HeldApart | libc/stdlib/malloc.c:60-119 | between calls, whatever the program holds lies in the heap, and no two of its pieces overlap |
| Malloc.Heap.FindFree | libc/stdlib/malloc.c:16-21 | the walk over headers in memory finds the first fit |
| Malloc.Heap.Grow | libc/stdlib/malloc.c:23-45 | whole pages from sbrk become one block linked at the end; no live payload changes; a refusal changes nothing below the break |
| Malloc.Heap.SplitBlock | libc/stdlib/malloc.c:47-58 | the header written inside the block makes the list in memory the split list |
| Malloc.Heap.Malloc | libc/stdlib/malloc.c:60-78 | a pointer not held before, for a block at least as large as requested; every pointer held keeps its bytes; the list in memory is the list malloc should leave; null only for a zero request or a refused growth, with nothing changed below the break |
| Malloc.Heap.Free | libc/stdlib/malloc.c:80-93 | that pointer is no longer held, every other keeps its bytes; only the header of the freed block changes; the list in memory is the coalesced one |
| Malloc.Heap.Calloc | libc/stdlib/malloc.c:95-103 | a new pointer to zeros; or null with nothing changed below the break, only when the product is 0 or reaches 2^32, or when no block fits |
| Malloc.Heap.Realloc | libc/stdlib/malloc.c:105-119 | the bytes survive up to the smaller size, every other pointer held keeps its entry, and the list is the one before, that of malloc, or that of malloc and free; a failure changes nothing below the break, and comes only when the block is too small and no other fits |
| Malloc.Heap.Move | libc/stdlib/malloc.c:112-118 | the branch that allocates, copies and frees |
| Malloc.Heap.Write | libc/stdlib/malloc.c:60-119 | a store by the program into memory it holds changes that byte only and no header |
| Malloc.Heap.Again | libc/stdlib/malloc.c:60-93 | malloc, free, malloc of one size returns the same pointer and grows at most once |
| UserHeap.SbrkServes | libc/unistd/sbrk.c:5-13 | through the wrapper, sys_sbrk does to the image of the calling process what malloc's grow relies on: a refusal leaves every byte below the break, a growth adds exactly the bytes asked for |
| UserHeap.HeapIntact | libc/stdlib/malloc.c:6-119 | over any run of the machine in which a process does not itself write into its heap or give it up, every piece it holds is there with its bytes, and so is the block list |
| Numbers.BufferSuffices | libc/stdio/printf.c:27-41 | at most 23 characters for any 64-bit value with a sign in bases 8 to 16, of 32 in the buffer |
| Numbers.PrintNumber | libc/stdio/printf.c:24-58 | prints the usual text of the number, or nothing beyond a prefix of it when the emitter refuses, or nothing at all when the count would pass the limit |
| Numbers.ReverseInPlace | libc/stdio/printf.c:46-51 | the swaps leave the reverse of the digits |
| Numbers.Strtol | libc/stdlib/strtol.c:4-43 | the value of the longest digit run in 32-bit arithmetic, and where it ends |
| Numbers.OrdinaryRead | libc/stdlib/strtol.c:4-43 | for blanks, a sign, a prefix, digits and a rest, in any base from 2 to 36 or detected: the signed value of the digits, and the end behind them |
| Numbers.TextBack | libc/stdio/printf.c:31-38 | the digits printed denote the number printed |
| Numbers.PrintThenScan | libc/stdlib/strtol.c:4-43 | strtol reads the whole of what print_number printed, as the number that was printed |
| Numbers.SignedRoundTrip | libc/stdlib/strtol.c:4-43 | every signed 32-bit integer comes back |
| Numbers.EndConformsIff | libc/stdlib/strtol.c:15-19 | *endptr is what C11 section 7.22.1.4 asks for exactly when the text is not a bare hexadecimal prefix |
| Numbers.ValueConformsIff | libc/stdlib/strtol.c:36 | the value is what C11 asks for exactly when the number fits a long or wraps onto the clamped value |
| Numbers.StrtolDeparts | libc/stdlib/strtol.c:4-43 | the texts "0x" and 2^32 in hexadecimal, on which they differ |
| Numbers.OctalToInt | kernel/arch/i386/initrd.c:36-41 | the value of the leading octal digits modulo 2^32 |
| Numbers.OctalRoundTrip | kernel/arch/i386/initrd.c:36-41 | octal_to_int inverts the base-8 output in a zero-padded field |
| Printf.VprintfGen | libc/stdio/printf.c:60-184 | the count of all characters of the format with its arguments, all printed; or -1 with a prefix printed exactly when they exceed an int or the emitter refuses |
| Printf.ConversionShows | libc/stdio/printf.c:105-168 | read back from the characters: %u, %o, %x and %X print a numeral of the 32-bit argument in base 10, 8 and 16 with the right letters, %d and %i one of its signed value with a minus sign exactly when it is negative, %p one behind 0x, %c the character and %s the string |
| Printf.UnknownPrinted | libc/stdio/printf.c:169-180 | a conversion with an unknown letter prints itself and the rest of the format |
| Printf.ConversionFound | libc/stdio/printf.c:86-103 | whatever flags and width precede it, the scan ends at the conversion letter |
| Printf.FormatRoundTrip | libc/stdio/printf.c:60-184 | a format put together from characters (percent signs doubled) and conversions prints exactly those characters and, for each conversion, what its letter promises of its argument, in order |
| Initrd.PaddedCovers | kernel/arch/i386/initrd.c:101-102 | file data is padded to whole blocks of 512 bytes, and no further |
| Initrd.ArchiveLaid | kernel/arch/i386/initrd.c:9-27 | an archive written entry by entry has the layout the walk relies on |
| Initrd.HeaderFacts | kernel/arch/i386/initrd.c:76-97 | what the walk reads in a header is the name, the size and the kind that were written |
| Initrd.Disk.Initialize | kernel/arch/i386/initrd.c:72-103 | the walk ends, having found exactly the regular files of the archive, or the first 64 of them |
| Initrd.Disk.FindDir | kernel/arch/i386/initrd.c:64-70 | the first node of that name, or none exactly when no node has it |
| Initrd.Disk.Read | kernel/arch/i386/initrd.c:43-52 | the bytes of the file from the offset on, at most as many as asked for |
| Initrd.InBoundsIff | kernel/arch/i386/initrd.c:43-52 | a read stays inside its file exactly when it starts past the end or offset plus size does not wrap around |
| Initrd.ReadLeavesFile | kernel/arch/i386/initrd.c:43-52 | offset 1 and size 2^32 - 1 on a file of two bytes: a read that leaves it |
| Initrd.RoundTrip | kernel/arch/i386/initrd.c:36-113 | archiving, walking, finding by name and reading gives back every file's bytes |

## Left out

- Drivers and user interface (interrupt controller, serial line, timer programming, keyboard, terminal, debugger): hardware.
- Assembly (interrupt stubs, task switch, entry to user mode): only the effect of a switch is modelled.
- The TSS stack pointer and the registers of a task other than CR3, and so the contents of kernel stacks.
- The TLB: every access walks the tables, and invlpg does nothing.
- `task_create` and kernel threads: no code of the kernel calls it.
- The pages of the first program stay in the boot directory after process 0 calls execve, and count as held by the boot directory; the kernel's copy of its file in the kernel heap is not modelled byte by byte.
- Kernel heap reclamation: there is none; `kfree` does not exist.
- `sys_write`, `sys_getpid`, `readdir`: easy on their own.
- String functions: strings and blocks of memory are sequences, and `memcpy`, `memset` and `strcmp` act on them as specified.
- `malloc` in a process whose break has passed 2 GiB: `sbrk` then reports an error although the break has moved.
- Alignment of `malloc` results beyond what the tiling gives: the header is 12 bytes, so payloads are only 4-byte aligned.
- printf flags and widths: read and ignored, as in the source; the overflow of a width of more than nine digits is not modelled.
- Malloc.Heap.Malloc: says nothing for requests above 0x7FFFEFF0 bytes; `Malloc.GrowthIff` shows that `grow` then asks for the wrong amount.
- Malloc.Heap.Sbrk: promises nothing about memory above the break after a refusal, because `sys_sbrk` leaves the pages it had already mapped; so neither does a null from malloc.
- Malloc.Heap.Calloc: the same bound on the product when it stays below 2^32.
- Malloc.Heap.Realloc: the same bound on the new size.
- Malloc.Heap.Move: the same bound on the new size.
- Sbrk.SysSbrk: covers breaks that stay at or above the start of the heap; the source would unmap the program's own pages below it.
- Kernel.Kernel.Sbrk: the same.
- Numbers.PrintNumber: covers bases 8 to 16; the callers use 8, 10 and 16.
- Numbers.Strtol: covers bases 0 and 2 to 36; base 1, negative bases and larger ones are outside what C11 allows.
- Machine.Machine.PagingMap: covers user entries that are absent, mapped for user mode and writable, and shared kernel entries;
  every caller maps one or the other.
- Machine.Machine.PagingUnmap: covers entries that are present; every caller has looked.
- A boot loader that sets the module flag without giving any module: `pmm_initialize` then reserves the frame at the address of the empty list, unless that address is page-aligned.
- Pmm.FrameAllocator.constructor: covers memory maps that end below 0xFFFFF000 and reserved ranges inside RAM.
- Initrd.Disk.Read: covers reads that do not wrap around; `Initrd.ReadLeavesFile` shows where the others end up.
