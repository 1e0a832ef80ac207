# A verified model of the kernel's memory, processes and files

This project models the core of a small x86-64 teaching kernel and proves what it is meant to
guarantee:

- the **memory manager**: the first-fit bitmap of 4 KiB frames, four-level page tables built on
  demand, copy-on-write fork, the page-fault handler, and the reclaiming of dead processes' memory;
- the **process lists**: the ring of control blocks and the lists of forked and stopped processes,
  under fork, wait, execve, exit and kill, together with the deferred reclaiming that sys_exit does;
- the **VMA list and the ELF loader**: sorted insertion into a linked list, and the image that
  load_binaries builds in a process's memory, byte by byte;
- the **file table and the shell's state**: the ustar walk, the current directory, and the environment.

The memory manager is described twice. `Vm.State` is a value: the contents of every frame, a role for
every frame (free, held, PML4, PDPT, PD, PT with its place, private data with its page, shared data), and
the boot PML4. `Vm.Inv` says that each frame is what its role says; because a table or private frame is
labelled with the one place that links it, ownership, the forest shape of the tables and the zeroed free
list are all one invariant. Steps, mappings, fork, faults and reclaiming are functions on states with
their theorems (`Steps` to `Reclaim`). `Machine.Machine` is the manager as it runs: memory, bitmap and CR3
changed in place by the kernel's loops, each method proved equal to its function on states.

The main results:

- `Refinement.RunRefines`: over every run, copy-on-write with frames, tables and fault handling shows
  each live process exactly what it would see in a system where an address space is a plain map and fork
  copies it all at once. `Theorems.StoresIsolated` is the consequence for stores.
- `Kernel.KernelRefines`: the same over every run of the whole kernel, process calls and memory operations
  interleaved, failed execves and the processes astray after them included, with lists, memory and CR3 kept
  together. `Kernel.KernelAlways` and `Kernel.ExitAlwaysSafe` say it of every state reached from the end of
  start(): the direct map stands, the kernel still holds the memory below the first managed frame, the
  bitmap there marks exactly the free frames, and an exit frees no frame that a remaining process, or the
  address space that CR3 still holds, maps.
- `Syscalls.Core.Fork`, `Syscalls.Core.Exit` and the other methods of `Syscalls.Core`: each system call, made of
  the routines on linked control blocks, page tables and CR3, is the event of that name, so the results on all
  runs of events are about the routines as they run.
- `Boot.SetUpOk`, `Boot.BootedOk` and the constructor of `Machine.Machine`: init_paging, setup_page_tables
  and set_identity_paging, table by table, from zeroed memory to the state in which all those runs begin.
- `Exec.LoadIsRun` and `Exec.StartLoads`: execve, or the start of the first process, followed by
  load_binaries is such a run, and the process that comes out has the file's VMA list, image and arguments.
  `Exec.FailLoads`: so is an execve that fails.
- `Progress.NeverStuckAlways`: as long as every execve finds a file that loads, no process of the ring has a
  fault on which the page-fault handler's search never ends, although nothing in the handler sees to that.
  `Progress.StuckOnlyStray`, `Hang.FailedFaults` and `Hang.HangsAlways`: the condition is needed. After an
  execve that fails the handler never returns exactly on those faults that its caller's list decides so, and
  with a user process running and ten free frames such an execve is always possible.
- `Fork.ForkOk` with `Machine.Machine.CopyParentTables`: the four nested loops share every user page
  read-only and copy-on-write, on fresh tables that are never cleared, which is right only because free
  frames are always zero.
- `Theorems.OwnedAlways`, `Theorems.TablesForest`, `Reserved.KernelImageAlways` and `Reserved.BitmapAlways`:
  frame ownership in every reachable state, kernel memory that is never handed out, never mapped by a
  process and written by the kernel alone, and a bitmap, in memory at physfree, that is never wrong.
- `Stacks.WriteKeepsInv` and `Stacks.FirstForkStack`: exactly which of the kernel's own writes would break all
  this, and when the kernel stacks of user processes are such a case.
- `Ring.RingAlways`, `Ring.ExitLosesNone`, `Deferred.ExitSafe` and `Process.Processes.SysExit`: the lists
  over whole runs, exactly when an exit loses a process, and why the frames it frees are nobody's.
- `Elf.ProcessSeesImage`, `Elf.ListLoaded` and `Loader.LoadBinaries`: the loaded image and VMA list.
- `Tarfs.FileTable.InitTarfs` with `Tarfs.ArchiveLaidOut` and `Tarfs.LayoutUnambiguous`: the table is the
  inverse of the archive layout.

Some things the code does differ from what its comments or design suggest. The model follows the code,
and states exactly when each matters:

- pagefault_handler kills only a process without any VMA (`Fault.Verdicts`, `Fault.FaultRepairsExactly`).
  When no VMA covers the address it returns with nothing changed, and when the first one that does is not
  HEAP, STACK or DATA its loop never ends: that happens exactly on such a list and a page that is not
  copy-on-write (`Fault.SearchDiverges`, `Fault.StuckExactly`). No process in its own address space runs into
  that, because the loader maps every page whose search would not end, and forked children inherit them
  (`Progress.StuckOnlyStray`, `Progress.NeverStuckAlways`). An uncovered page is reached easily: a null
  pointer is never fatal (`Progress.NullIgnored`).
- An execve whose load fails, because there is no such file, it is no ELF file, or a segment is empty,
  returns to its caller in the address space of the program that was not loaded, with curr_process and its
  VMA list unchanged (`Process.Processes.Execve`, `Exec.FailLoads`). The caller can use the new stack page
  and the pages of the segments before the empty one; any other access faults, and the handler, which looks
  the page up in the loaded space but acts on the list and the space of curr_process
  (`Fault.FaultAbroad`), never returns exactly if the first range that covers the page is not HEAP, STACK
  or DATA (`Hang.FailedFaults`). The next instruction is such an access in a process whose text begins at
  0x400000 (`Hang.MissingFileHangs`). Any other verdict but an exit brings the process back to its own space,
  whose topmost stack page has been taken away (`Hang.CallerLosesStack`, `Hang.CallerStackFault`), and a fork
  before that makes the foreign space its own (`Hang.StrayForkHangs`).
- free_page compares the whole entry with ten million, so no frame after the 2441st is ever given back, and
  memory from 10 MB on that a process has used is lost (`Reclaim.FreePageReturns`, `Reclaim.ReturnLimit`,
  `Deferred.ExitReturns`).
- free_vma steps from the unrounded start address, so it can miss the last page of a range, and a small
  unaligned segment shows it (`Reclaim.VisitedCovers`, `Reclaim.SmallSegmentKept`).
- wait moves curr_process on whatever pid it is given, but goes over to that process only if the pid is its
  own (`Process.Processes.Wait`).
- sys_exit drops every process after the caller in the ring (`Ring.ExitLosesNone`,
  `Ring.ExitWithoutWait`).
- load_binaries maps a fresh page when two segments share one, so the earlier bytes are lost unless the last
  segment on the page puts the same there (`Elf.LastWins`, `Elf.SharedPageLoses`), and sets a node's link to
  NULL after linking it in, which cuts the list unless the node was last (`VmaList.PlacedKeeps`).
- A directory in the file table never gets a parent inode (`Tarfs.DirectoryParentless`).
- chdir enters a directory by one component, also after "./", "../" or "/", but never by a path of two or more
  (`Chdir.EntersAbsolute`, `Chdir.NestedRelativeFails`, `Chdir.NestedAbsoluteFails`).
- "cd /" leaves the path that ".." works on where it was (`Chdir.UpAfterRoot`), and a cd that fails moves
  that path, unless the name is a relative one without ".." or the path is the root already
  (`Chdir.FailedMoves`, `Chdir.FailedUnchanged`).
- Only 32 process numbers are handed out, although the word has 64 bits (`Pid.Pids.Next`).

The theorems on runs presume that the kernel itself writes only to frames it holds (the operation
`KernelWrite`). The code does not keep to that in one place, which the model states and does not repair:
init_kernel is computed with a pointer to control blocks, so the kernel stack of a user process is 4088
control blocks, some 23 MB, above its own, in frames that the bitmap marks free if memory reaches so far
and has not been handed out up to there. The copy that a fork makes of the parent's stack then leaves a
free frame that is not zero, and a later fork links it, uncleared, as a page table (`Stacks.StackFrames`,
`Stacks.FirstForkStack`, `Stacks.StackFreeAtBoot`, `Stacks.DirtyTable`). In a frame in use for data such a
write keeps the invariant (`Stacks.WriteKeepsInv`), but the processes see it, and are no longer isolated,
unless no user page lies in the frame or the bytes are those that were there (`Stacks.WriteSeen`).

What the kernel's callers must ensure, since the code does not check it, appears as preconditions: enough
free frames for what is asked, at most 64 MiB of memory, memory above the kernel image zero at boot and
41 frames of it for the boot-time tables (`Boot.BOOT_FRAMES`, 2 + 3 + 4 and a page table for each 2 MiB),
free_map aligned to its words, user mode on address spaces other than the boot one,
32 process numbers, strings that fit their buffers.

## Model

| member | source | states |
|---|---|---|
| `Words.DecodeValue` | sys/paging_helper.c:78-80 | the fields of a page-table entry (frame, software and hardware bits) are recovered from the 64-bit word that encodes them |
| `Words.DecodeFits` | sys/paging_helper.c:78-80 | every 64-bit word is the encoding of exactly those fields, so user data and entries share one representation |
| `Words.RemoveFlag` | sys/paging_helper.c:78-80 | masking the 64-bit value of any entry with remove_flag leaves the address of its frame |
| `Words.FlagTests` | sys/paging.c:651-676 | masking the 64-bit value with PT_PR or with bit 9, and likewise with PT_WR and PT_U, tests that field of the entry |
| `Words.EntryIsOr` | sys/paging.c:470-479 | a frame address with the flags or-ed in is the value of the entry that the model writes |
| `Words.CowEntryIsOr` | sys/paging.c:616-624 | a leaf masked with remove_flag and or-ed with PT_PR, PT_U and bit 9 is the value of the copy-on-write entry for the same frame |
| `Pages.IndicesDetermine` | sys/paging.c:414-417 | the four 9-bit indices of an address are the digits of its 48-bit page number, so they determine the page |
| `Pages.PageOfInjective` | sys/paging_helper.c:66-69 | two addresses have the same indices exactly when they lie on the same page |
| `Pages.DirectPageOf` | sys/paging.c:310-320 | KERNEL_ADDR plus a frame's address lies in PML4 slot 511 and PDPT slot 510, at the frame's own indices |
| `Vm.Walk` | sys/paging.c:651-666 | under the invariant each level of a walk reaches the table labelled with the indices taken so far |
| `Vm.UserLeaf` | sys/paging.c:413-635 | a present user leaf has bit 9 set exactly when WR is clear, and is then shared, otherwise private to this page |
| `Vm.PrivateNamedOnce` | sys/paging.c:413-482 | a frame behind an unmarked user leaf has no second name in any address space |
| `Vm.KernelHalfAgrees` | sys/paging.c:381-411 | all address spaces translate slot 511 alike |
| `Vm.WalkOpensExactly` | sys/paging.c:428-479 | outside the boot space every table entry above a leaf has the user bit, so the processor lets a user access through exactly if the leaf is present and has it |
| `Vm.KernelUnmarked` | sys/paging.c:246-308 | no kernel page is marked copy-on-write |
| `Steps.TakeInv` | sys/paging.c:84-93 | taking a free frame keeps the invariant: nothing refers to it |
| `Steps.FillInv` | sys/paging_helper.c:46-64 | writing a whole data frame keeps the invariant, and so every translation |
| `Steps.LinkInv` | sys/paging.c:433-441 | linking an empty, unused table behind an absent entry keeps the invariant |
| `Steps.LinkWalks` | sys/paging.c:433-441 | it changes no leaf of any address space |
| `Steps.SetLeafInv` | sys/paging.c:470-479 | giving a page a frame of its own keeps the invariant, whatever the leaf held before |
| `Steps.SetLeafWalks` | sys/paging.c:470-479 | exactly the page behind the entry is translated differently |
| `Steps.ShareLeafInv` | sys/paging.c:616-624 | marking a leaf copy-on-write in parent and child keeps the invariant |
| `Steps.ShareLeafWalks` | sys/paging.c:616-624 | both spaces name the parent's frame read-only at that page, and no other leaf changes |
| `Steps.ClearLeafInv` | sys/paging.c:714-719 | clearing a private leaf and zeroing its frame keeps the invariant |
| `Steps.NewRootInv` | sys/paging.c:381-411 | a new PML4 with only the kernel slot keeps the invariant |
| `Mapping.FirstFreeFound` | sys/paging.c:84-93 | while a free frame remains the allocator finds one, the least |
| `Mapping.TablesOk` | sys/paging.c:428-468 | building up to three levels of tables on demand changes no translation, uses exactly the missing tables' frames, and puts the page's table in place |
| `Mapping.TakeManyOk` | sys/paging.c:340-348 | allocating n times takes the n least free frames, each zero, and changes no other frame, no byte and no translation |
| `Mapping.MapUserOk` | sys/paging.c:413-482 | exactly one translation changes: the page now names a frame that was free and holds a copy of the source, writable; data frames keep their bytes |
| `Mapping.MapKernelUserOk` | sys/paging.c:246-308 | on a user page the kernel's routine changes one translation, to the given frame itself |
| `Mapping.MapKernelHalfOk` | sys/paging.c:246-308 | on a kernel page it changes that translation in every address space alike, and no other |
| `Fork.CopyOk` | sys/paging.c:564-635 | the loop over a table of any level, with the loops inside it, makes parent and child name the same frames copy-on-write behind the remaining entries and changes nothing else; tables needed are at most the parent's not yet copied |
| `Fork.CopyEntry` | sys/paging.c:583-629 | once an inner loop is done on a fresh table the outer one can go on |
| `Fork.NewSpaceOk` | sys/paging.c:381-411 | a new address space has the kernel half of the others and no user page |
| `Fork.ForkOk` | sys/paging.c:564-635 | after a fork child and parent have the parent's frames at every user page, all read-only and copy-on-write, every other space is unchanged, slot 511 is shared, and all the child's tables are fresh |
| `Fault.VirtToPhysCases` | sys/paging.c:637-679 | virt_to_phys answers 0, 999 or a frame address exactly for absent, writable and copy-on-write pages, never confusing them |
| `Fault.ReplaceOk` | sys/paging.c:501-515 | the handler's scratch frame and mapping give the page a frame of its own with the wanted contents and change nothing else |
| `Fault.FaultCopies` | sys/paging.c:501-506 | a copy-on-write page becomes present, writable and private with its old bytes |
| `Fault.Verdicts` | sys/paging.c:488-533 | each of the five ways in which the handler ends, by an exact condition on the leaf and the VMA list |
| `Fault.RangesDecide` | sys/paging.c:507-528 | range by range: the first range that covers the page, both its ends included, has it filled if it is a heap, a stack or data, and hangs the handler if it is text or undefined |
| `Fault.FaultFills` | sys/paging.c:507-528 | a page that is not copy-on-write becomes zeros when the first VMA covering its start is HEAP, STACK or DATA; otherwise nothing changes, and the process is killed, ignored or stuck as the list has no VMA, none that covers, or another first one |
| `Fault.SearchWalks` | sys/paging.c:507-521 | after any number of iterations the handler's loop is at that node, up to the first covering one, where it stays if that one is not to be filled |
| `Fault.SearchDiverges` | sys/paging.c:507-521 | the loop never ends if and only if the first covering VMA is not HEAP, STACK or DATA |
| `Fault.StuckExactly` | sys/paging.c:488-533 | the handler never returns if and only if the page is not copy-on-write and that loop never ends |
| `Fault.FaultAbroad` | sys/paging.c:496-530 | when CR3 does not hold the address space of curr_process the handler decides as if it did, but the page that it copies or fills is one of the process's own space, and the loaded one stays as it is |
| `Fault.KernelFault` | sys/paging.c:488-533 | a fault of user mode in the kernel half changes nothing, and kills only a process without any VMA |
| `Fault.FaultRepairsExactly` | sys/paging.c:488-533 | a page that the user could not write is writable afterwards if and only if it was copy-on-write or its first VMA is one to fill, and the process is killed only when it has no VMA |
| `Reclaim.FreePageOk` | sys/paging.c:681-725 | free_page gives back the frame behind one private leaf below the limit, zeroed, and changes no other translation |
| `Reclaim.FreeRangeOk` | sys/vma.c:41-44 | the inner loop of free_vma gives back exactly the private frames behind the pages it visits |
| `Reclaim.FreeVmasOk` | sys/vma.c:28-60 | free_vma gives back exactly the private frames below the limit behind all the ranges, and no other address space notices |
| `Reclaim.FreePageReturns` | sys/paging.c:714-719 | free_page clears exactly a present leaf without bit 9 whose value is below ten million, and its frame is then free and zero; no other leaf changes |
| `Reclaim.ReturnLimit` | sys/paging.c:714-714 | of the leaves that the mapping routines write these are the ones on frames up to 2441 |
| `Reclaim.FreeVmasReturns` | sys/vma.c:28-60 | free_vma does so for every page that is a whole number of pages from the start of some range and before its end, and changes no translation elsewhere |
| `Reclaim.BackingSize` | sys/vma.c:28-60 | no frame is given back twice: each private page of the ranges has its own |
| `Reclaim.ReclaimCount` | sys/vma.c:28-60 | the bitmap gains one zeroed frame for each private page given back |
| `Reclaim.RootsSurvive` | sys/vma.c:28-60 | reclaiming removes no address space |
| `Reclaim.VisitedPages` | sys/vma.c:39-44 | the pages visited are those a whole number of pages from the start address |
| `Reclaim.VisitedCovers` | sys/vma.c:37-44 | every page of a range is visited if and only if the last byte's page offset is not below the first's |
| `Reclaim.LastPageKept` | sys/vma.c:37-44 | when that fails the page of the last byte is translated as before after free_vma |
| `Reclaim.SmallSegmentKept` | sys/vma.c:37-44 | it does for a data segment of 32 bytes at 0x400FF0 |
| `Refinement.StepRefines` | sys/paging.c:326-725 | each operation keeps the invariant, and what the live processes see changes as in the simple system |
| `Refinement.RunRefines` | sys/paging.c:326-725 | so does every run of creation, kmalloc, mapping, fork, loads, stores, exit and reclaiming |
| `Refinement.ForkRefines` | sys/paging.c:564-635 | fork looks like copying the whole address space at once |
| `Refinement.OpenPages` | sys/paging.c:488-533 | a page is open to the user in the simple system exactly when the processor's whole walk, all four entries, lets a user read it there |
| `Refinement.StoredSpaces` | sys/paging.c:488-533 | a user store, with its fault, changes one word of one page of one process as the simple system's store does, the user bits included |
| `Refinement.KernelWriteRefines` | sys/process.c:476-476 | what the kernel writes to frames that it holds is seen by no process and keeps the invariant |
| `Refinement.KmallocsRun` | sys/paging.c:326-351 | a kmalloc of n pages is a run of n operations |
| `Refinement.CopySpaces` | sys/paging.c:501-506 | splitting a copy-on-write page is seen by nobody |
| `Refinement.ReclaimRefines` | sys/vma.c:28-60 | reclaiming a process that has left is seen by no live process |
| `Theorems.OwnedAlways` | sys/paging.c:326-725 | in every state reached by the memory manager's operations, user accesses and the kernel's writes to frames it holds, free frames are zero and unnamed, marks and write bits are opposite, and unmarked frames have one name |
| `Theorems.TablesForest` | sys/paging.c:381-635 | tables are linked from one entry only, except that all PML4s share slot 511 |
| `Theorems.StoresIsolated` | sys/paging.c:488-635 | in every reachable state a store changes no word that any process sees but the stored one |
| `Theorems.DirectAlways` | sys/paging.c:310-351 | once built, the direct map at KERNEL_ADDR is kept in every address space by every run |
| `Reserved.StepStays` | sys/paging.c:84-725 | no operation hands out, reclaims or writes a frame that the kernel holds, except the kernel's own write to it |
| `Reserved.HeldAlways` | sys/paging.c:84-725 | nor does any run of operations: its bytes are those that the kernel wrote there last |
| `Reserved.KernelImageAlways` | sys/paging.c:34-107 | in every state reached from the end of start() the frames below the first managed one are held by the kernel and behind no user page, and, the bitmap's words aside, hold what the kernel wrote there last |
| `Reserved.BitmapAlways` | sys/paging.c:67-107 | and the 256 words at physfree mark exactly the free frames; with them in memory the invariant holds and every process sees the same |
| `Bits.AssignTest` | sys/paging_helper.c:22-31 | setting or clearing one bit of a bitmap word changes that bit only |
| `Bits.AssignValue` | sys/paging_helper.c:22-31 | it changes the word's value by that bit's weight, or not at all |
| `Bits.OrDigit` | sys/paging_helper.c:22-24 | or-ing 1 << j in is setting bit j |
| `Bits.AndOthers` | sys/paging_helper.c:29-31 | masking with the complement of 1 << j is clearing bit j |
| `Bitmap.SetBit` | sys/paging_helper.c:22-24 | the set of free frames gains exactly that frame |
| `Bitmap.UnsetBit` | sys/paging_helper.c:29-31 | the set of free frames loses exactly that frame |
| `Bitmap.GetFirstPage` | sys/paging.c:67-79 | the answer is the least free frame, or -1 exactly when there is none |
| `FreeMap.MembersDetermine` | sys/paging.c:39-62 | the bitmap's words are determined by the set of free frames |
| `FreeMap.CompleteBits` | sys/paging.c:39-62 | read from memory at physfree, the bit of a frame is set exactly if the frame is free |
| `FreeMap.CompleteOk` | sys/paging.c:39-62 | putting the words into memory keeps the invariant, every translation and every view |
| `FreeMap.BootedMapHeld` | sys/paging.c:39-47 | at the end of start() the kernel holds the one or two frames that the words lie in |
| `Direct.DirectStep` | sys/paging.c:310-320 | one iteration of set_identity_paging maps one more frame, keeps those mapped, even when it takes a table from the same pool, and leaves every held frame held with its bytes |
| `Direct.IdentityMappedOk` | sys/paging.c:310-320 | so does the whole loop, and the frames it was given are enough |
| `Direct.DirectMapNoop` | sys/paging.c:326-351 | mapping a frame at its own kernel address again changes nothing in any address space |
| `Direct.DirectEverywhere` | sys/paging.c:310-320 | every address space reaches every mapped frame through the direct map |
| `Boot.InitPaging` | sys/paging.c:34-62 | after init_paging the free set is exactly the whole frames from physfree_start to the end of memory |
| `Boot.BootInv` | sys/paging.c:150-156 | the state after the first two allocations of setup_page_tables, the PML4 and the table of its slot 511, satisfies the invariant |
| `Boot.TakeTwo` | sys/paging.c:84-107 | two allocations give the two least frames and leave the others free |
| `Boot.SetUpOk` | sys/paging.c:141-194 | the kernel's page directory and page tables, the entries of the image, the bitmap and the screen, and the tables' own entries: after all of setup_page_tables the invariant holds, every held frame is as it was, and frames enough for set_identity_paging are left |
| `Boot.BootedOk` | sys/main.c:46-57 | at the end of start() the invariant holds, every frame is reached through the direct map, the boot PML4 is the only address space, at most 41 frames have been taken, and the frames below the first managed one hold what they did, the bitmap's words aside |
| `Boot.SetUpMaps` | sys/paging.c:157-180 | after setup_page_tables the kernel's page tables map each frame of the image, of those that share an index the last, and the screen memory |
| `Boot.SetUpMapsTables` | sys/paging.c:183-191 | and the frames of the PML4, the PDPT and the page directory at their own kernel addresses |
| `Machine.Machine.constructor` | sys/main.c:46-57 | on zeroed memory init_paging, setup_page_tables and set_identity_paging as they run end in the specified state, with the direct map in place; physical memory is that state with the bitmap's words at physfree, marking exactly the free frames |
| `Machine.Machine.RamIsComplete` | sys/paging.c:39-107 | after every routine physical memory is the state with the bitmap of its free frames in its place |
| `Machine.Machine.KernelStore` | sys/process.c:476-476 | a kernel store to a frame that the kernel holds is the specified write |
| `Machine.Machine.SetupPageTables` | sys/paging.c:141-194 | setup_page_tables as it runs, after its first two allocations, is the specified construction |
| `Machine.Machine.MapImage` | sys/paging.c:161-167 | the loop over image and bitmap writes the specified entries of one page table |
| `Machine.Machine.MapSelves` | sys/paging.c:183-191 | the four last calls map the PML4, the PDPT, the page directory and the page table that the third call left behind |
| `Machine.Machine.MapVirtToPhysAddr` | sys/paging.c:196-240 | map_virt_to_phys_addr as it runs is the kernel mapping on the boot PML4 |
| `Machine.Machine.AllocateVirtPage` | sys/paging.c:99-107 | the least free frame leaves the bitmap, and it is zero |
| `Machine.Machine.Memset` | sys/paging_helper.c:46-54 | the loop leaves a zero frame and touches no other |
| `Machine.Machine.Memcpy` | sys/paging_helper.c:56-64 | the loop leaves a copy of the source frame and touches no other |
| `Machine.Machine.NextLevel` | sys/paging.c:428-441 | following or making one level equals its function on states, in place |
| `Machine.Machine.MapPhysToUserVirtAddr` | sys/paging.c:413-482 | the routine as it runs is the mapping that changes one translation |
| `Machine.Machine.MapPhysToVirtAddr` | sys/paging.c:246-308 | the routine as it runs is the kernel mapping, on the current CR3 |
| `Machine.Machine.SetIdentityPaging` | sys/paging.c:310-320 | the loop as it runs is the specified one, after which every frame is the translation of KERNEL_ADDR plus its address in every address space |
| `Machine.Machine.Kmalloc` | sys/paging.c:326-351 | for any size as many frames as its bytes need are taken, the least free ones, zeroed, and no translation, no other frame and no byte changes once the direct map stands |
| `Machine.Machine.CreateUserAddressSpace` | sys/paging.c:381-411 | a new address space with the current kernel half, in place |
| `Machine.Machine.CopyLeaves` | sys/paging.c:615-625 | the innermost loop over 512 leaves equals the copy of one page table |
| `Machine.Machine.CopyPageTables` | sys/paging.c:604-627 | the loop over a page directory equals the copy at that level |
| `Machine.Machine.CopyDirectories` | sys/paging.c:593-630 | the loop over a PDPT equals the copy at that level |
| `Machine.Machine.CopyParentTables` | sys/paging.c:564-635 | the four nested loops over the current PML4 equal the copy of the whole address space |
| `Machine.Machine.AllocateTable` | sys/paging.c:586-588 | a frame linked as a table without being cleared is an empty table all the same |
| `Machine.Machine.ForkMemory` | sys/process.c:442-444 | address-space creation and table copying together are the fork that the theorems are about |
| `Machine.Machine.VirtToPhysAddr` | sys/paging.c:637-679 | the walk as it runs returns the specified answer |
| `Machine.Machine.PagefaultHandler` | sys/paging.c:488-533 | the handler as it runs, for any fault address, VMA list and address space of curr_process, ends in the specified state with the specified verdict and that space loaded, and is stuck only where its loop never ends |
| `Machine.Machine.SearchVmas` | sys/paging.c:507-521 | its loop over the VMA list as it runs |
| `Machine.Machine.UserStore` | sys/paging.c:488-533 | a user store, faulting into the handler when an entry of the walk is absent or not for the user or the leaf read-only, is the specified store |
| `Machine.Machine.FreePageAt` | sys/paging.c:681-725 | free_page as it runs is the specified reclaiming of one page |
| `Machine.Machine.FreeVma` | sys/vma.c:28-60 | both loops of free_vma as they run are the specified reclaiming |
| `VmaList.InsertSorts` | sys/vma.c:62-95 | inserting into a sorted list of disjoint ranges gives one if and only if the new range overlaps none |
| `VmaList.PlaceLast` | sys/vma.c:79-93 | the node goes to the end exactly when the first range ends before it and the others start before its end |
| `VmaList.PlacedKeeps` | sys/elf64.c:93-93 | setting the inserted node's link to NULL loses nothing if and only if it went to the end |
| `VmaList.CopiedListSame` | sys/process.c:451-474 | a child's list has the parent's ranges and types in the parent's order |
| `VmaList.Mm.AddMmstruct` | sys/vma.c:62-95 | add_mmstruct terminates, links the node in at its place, counts it, and refuses exactly the empty ranges |
| `VmaList.Mm.Prepend` | sys/vma.c:71-77 | insertion at the head keeps the list well linked |
| `VmaList.Mm.SpliceAfter` | sys/vma.c:80-92 | insertion after a node keeps the list well linked, with every other node in place |
| `VmaList.Mm.SetHeap` | sys/paging.c:544-548 | init_mmap's search changes the range of the first heap and no other |
| `VmaList.CopyList` | sys/process.c:448-474 | the copied list shares no node with the parent's, equals it if that is sorted, and counts almost twice as many ranges |
| `VmaList.FreeList` | sys/vma.c:35-46 | walking the nodes reclaims what free_vma is specified to on the list they hold |
| `Bytes.PutByteOk` | sys/paging_helper.c:56-64 | a byte store into a 64-bit word changes that byte only |
| `Bytes.PokeAllByte` | sys/paging_helper.c:56-64 | after a byte-wise copy each address of the range has its byte, and every other address its old one |
| `Bytes.ZeroPagesByte` | sys/elf64.c:84-91 | the mapped pages read as zeros up to the page holding the end address, that one included |
| `Elf.LoadSegmentBecame` | sys/elf64.c:84-111 | loading a segment changes that address space to the overlaid one and no other |
| `Elf.OverlaidByte` | sys/elf64.c:84-111 | byte by byte: the segment's bytes on the pages it covers, the old ones elsewhere |
| `Elf.LastWins` | sys/elf64.c:59-117 | each address holds what the last segment covering its page puts there, for every list of headers |
| `Elf.ImageLoaded` | sys/elf64.c:59-117 | for ascending segments on distinct pages each one's memory is its file bytes followed by zeros |
| `Elf.SharedPageLoses` | sys/elf64.c:59-117 | for every list of headers a byte of a segment is in memory at the end if and only if no later segment loads its page, or the last that does puts the same byte there |
| `Elf.ProcessSeesImage` | sys/elf64.c:40-167 | the process reads the image its headers describe and a zero first heap page, and no other process sees a change |
| `Elf.RegionsComplete` | sys/elf64.c:71-93 | ascending segments are all listed, in order |
| `Elf.ListLoaded` | sys/elf64.c:119-149 | the VMA list is exactly the segments, then the heap with its final range, then the stack |
| `Elf.ListKinds` | sys/elf64.c:71-149 | header by header: the range from p_vaddr to p_vaddr + p_memsz, data exactly for flags R and W, text otherwise, and then the heap and the stack at their addresses |
| `Elf.ProgramParsed` | sys/elf64.c:20-63 | the program headers of a file laid out as ELF prescribes are those that were written, and it has the magic number |
| `Loader.MapPages` | sys/elf64.c:84-91 | the page loop as it runs is the specified mapping |
| `Loader.CopyOut` | sys/elf64.c:102-102 | the byte copy through the process's own tables is the specified one |
| `Loader.InitMmap` | sys/paging.c:535-552 | the first heap page is mapped to zeros without being cleared, and the heap's range is set |
| `Loader.LoadBinaries` | sys/elf64.c:40-167 | the loader as it runs succeeds exactly for a file that is there, with a good magic number and no empty segment, and ends in the specified memory and list, also when it gives up half way |
| `Ring.ForkBlocks` | sys/process.c:408-417 | the child comes right after the caller, with the next number, the caller's pid as its parent and the caller's list; every other block stays |
| `Ring.SpawnBlocks` | sys/process.c:130-176 | the first process comes after the kernel's block, with the next number and parent 1, and runs |
| `Ring.ExecBlocks` | sys/process.c:574-634 | execve keeps the caller's pid, parent and place, gives it the new space and list, puts the old block last on forked_process, and leaves every other block alone |
| `Ring.WaitBlocks` | sys/process.c:486-515 | wait changes no block; the next one in the ring is current |
| `Ring.ExitBlocks` | sys/process.c:678-724 | the blocks before the caller stay, its predecessor is current, and the caller is the only dead process |
| `Ring.KillBlocks` | sys/process.c:740-790 | the victim goes to the end of stopped_process; every other block keeps its pid, space, list and place in the order, the victim's children get parent 1 except the block just before it, and the caller goes on |
| `Ring.KillNobody` | sys/process.c:792-795 | killing a pid that no process has changes nothing |
| `Ring.ForkSpaces` | sys/process.c:408-417 | fork adds exactly the child's address space to those of all control blocks |
| `Ring.ExecSpaces` | sys/process.c:614-634 | execve adds the new address space and keeps the old one on forked_process |
| `Ring.KillSpaces` | sys/process.c:740-801 | kill keeps every address space in some list |
| `Ring.ExitSpaces` | sys/process.c:678-735 | what an exit drops from the lists is exactly what it reclaims, when the caller is last |
| `Ring.RehomedKeeps` | sys/process.c:443-443 | an address space that is in no list can become the caller's, as fork makes the loaded one; the one it had is then in no list |
| `Ring.DoKeeps` | sys/process.c:408-801 | each permitted call keeps the ring invariant: distinct pids, parents present and earlier, lists disjoint |
| `Ring.RingAlways` | sys/process.c:408-801 | so does every run that follows each fork by a wait for the child, with curr_process last, or just before its unwaited child |
| `Ring.NewPid` | sys/process.c:39-50 | a forked or first process has a number greater than all in the ring |
| `Ring.PidsInOrder` | sys/process.c:39-50 | over every run the processes made are numbered one after the other |
| `Ring.WaitMoves` | sys/process.c:486-513 | the process that wait makes the current one has another address space than the caller |
| `Ring.ExitLosesNone` | sys/process.c:687-690 | an exit loses no process but the caller if and only if the caller is last in the ring |
| `Ring.ExitWithoutWait` | sys/process.c:687-690 | a process that exits before its child runs loses the child from every list |
| `Ring.ReclaimedGone` | sys/process.c:692-716 | what an exit reclaims belongs to no control block left in any list |
| `Reaping.ReapAllOk` | sys/process.c:692-716 | reclaiming dead processes disturbs no other address space |
| `Reaping.FreedUnmapped` | sys/process.c:692-716 | no frame freed that way is mapped by an address space not reclaimed |
| `Reaping.ReapAllReturns` | sys/process.c:692-716 | reclaiming dead processes gives back every such leaf on the pages of their ranges and on the page of the user stack pointer, and changes no other translation |
| `Process.InsertAfter` | sys/process.c:414-415 | linking a block in after another keeps the list well linked |
| `Process.Replace` | sys/process.c:614-634 | exchanging a block of the ring for another keeps it well linked |
| `Process.Append` | sys/process.c:775-786 | walking to the end and appending keeps a list well linked |
| `Process.Unlink` | sys/process.c:768-786 | unlinking a block from the ring keeps it well linked |
| `Process.Cut` | sys/process.c:690-690 | linking a block to first_process cuts the ring after it |
| `Process.OrphanLoop` | sys/process.c:758-765 | the loop gives pid 1 the victim's children, looking at all blocks but the victim and its predecessor |
| `Process.Processes.constructor` | sys/process.c:56-177 | booting makes a ring of the kernel's block and the first user process |
| `Process.Processes.ForkChild` | sys/process.c:408-484 | fork_child as it runs on linked blocks stores the loaded address space in the caller's block and is then the specified step |
| `Process.Processes.Wait` | sys/process.c:486-515 | wait makes the next process of the ring the current one, whichever pid was asked for, and goes over to its address space if and only if that is its pid |
| `Process.Processes.Splice` | sys/process.c:614-634 | the splice as it runs puts the new block in the caller's place and the old one last on forked_process |
| `Process.Processes.Execve` | sys/process.c:594-636 | if the load succeeds the ring is spliced and the new process runs in its own address space; if it fails the lists are as before and the caller goes on in the new address space |
| `Process.Processes.SysExit` | sys/process.c:678-735 | sys_exit as it runs changes the lists as specified, reclaims exactly the dead processes' memory, and runs the caller's predecessor in its own address space |
| `Process.Processes.ReapDead` | sys/process.c:692-716 | the two loops reclaim the stopped and then the forked processes and empty both lists |
| `Process.Processes.Kill` | sys/process.c:740-801 | kill of another process as it runs is the specified step, also when there is no such pid |
| `Process.Processes.Spawn` | sys/process.c:247-252 | when only the kernel's process is left a new first user process is linked in |
| `Deferred.JointKeeps` | sys/process.c:408-801 | lists and memory manager stay together under any permitted call and any growth of memory |
| `Deferred.ExitSafe` | sys/process.c:678-735 | after an exit every process left, the caller whose CR3 is loaded, and any address space in no list translates and sees everything as before, and maps none of the freed frames |
| `Deferred.ExitReturns` | sys/process.c:692-716 | at an exit that is done for all stopped and all forked processes |
| `Deferred.ReapIsRun` | sys/process.c:692-716 | sys_exit's loops are operations of the refinement theorem, which therefore covers them |
| `Kernel.EventKeeps` | sys/process.c:408-801 | each system call, memory operation and kernel write to a held frame, an execve that will fail, and a fault that brings its caller back keeps lists, memory and CR3 together and is a run of operations of the memory manager |
| `Kernel.KernelRefines` | sys/process.c:408-801 | over every run of such events each process of the ring, and the address space that is loaded, sees what it would see in the simple system under the same operations |
| `Kernel.BootJoint` | sys/process.c:56-89 | at the end of start() lists and memory fit together and the direct map is in place |
| `Kernel.KernelAlways` | sys/process.c:408-801 | in every state reached from there by any run of events lists and memory fit together, the direct map is in place, the kernel holds the memory below the first managed frame with only its own writes to it, the bitmap marks exactly the free frames, and each process of the ring and the loaded address space see what they would see in the simple system |
| `Kernel.ExitAlwaysSafe` | sys/process.c:678-735 | in every state reached from the end of start() an exit changes nothing that any remaining process or the loaded address space maps or sees, and frees none of their frames |
| `Syscalls.Core.Fork` | sys/process.c:408-484 | address space, tables and control block of a fork, as they are made, are the kernel's fork event |
| `Syscalls.Core.Wait` | sys/process.c:486-515 | wait as it runs is the kernel's event |
| `Syscalls.Core.Kill` | sys/process.c:740-801 | so is kill |
| `Syscalls.Core.Exit` | sys/process.c:678-735 | so is sys_exit, reclaiming included |
| `Syscalls.Core.Exec` | sys/process.c:583-636 | so are the new address space, the splice and the switch of an execve that succeeds |
| `Syscalls.Core.FailExec` | sys/process.c:583-603 | and the new address space and the switch of one that fails |
| `Syscalls.Core.Spawn` | sys/process.c:130-176 | so are address space and ring of the first process |
| `Syscalls.Core.FaultHome` | sys/paging.c:488-533 | so is the fault handler for a process outside its own address space, when it comes back |
| `Syscalls.Core.Store` | sys/paging.c:488-533 | and a user store with its fault is the kernel's memory event |
| `Exec.LoadIsRun` | sys/elf64.c:40-167 | load_binaries, page by page and byte by byte, is a run of the memory manager's operations, so every theorem about runs covers it |
| `Exec.ListUser` | sys/elf64.c:71-149 | the VMA list of any loaded file names user pages only, as the events require of it |
| `Exec.StartLoads` | sys/process.c:522-647 | execve, or the start of the first process, with the stack page that is also mapped in the space left behind, the call, the load and the arguments, is a run of the kernel; the running process then has the file's VMA list and the prepared memory, in its own address space |
| `Exec.PreparedImage` | sys/process.c:522-647 | that memory holds each segment below the heap as the headers describe it, and kernel_args and argc at their places on the stack |
| `Exec.FailLoads` | sys/process.c:522-603 | an execve that finds no file, no ELF file or an empty segment is a run of the kernel, too: the lists are as before, and the caller is left in the new address space |
| `Exec.FirstProcess` | sys/process.c:247-252 | at the end of start(), with five frames more than booting needs, the first process can be started with any well-formed file |
| `Progress.LoadedSearchesEnd` | sys/elf64.c:71-91 | in a process just loaded every page on which the fault handler's loop would not end is mapped for the user |
| `Progress.NeverStuck` | sys/paging.c:507-521 | so over any run in which a loaded process stays no fault of it leaves the handler in that loop |
| `Progress.ServedAlways` | sys/process.c:408-801 | over every run of calls, accesses, program starts and failed execves each user process of the ring, forked children included, has those pages and its stack page, if no stray process forks and the caller of a failed execve can spare its stack page |
| `Progress.StuckOnlyStray` | sys/paging.c:507-521 | in such a run, from the end of start() on, a fault that leaves the handler in that loop is one of a running process outside its own address space |
| `Progress.NeverStuckAlways` | sys/paging.c:507-521 | so as long as every execve names an existing ELF file without an empty segment, no process leaves its own address space and no fault of any process of the ring leaves the handler in that loop |
| `Progress.StackEventAllowed` | sys/process.c:588-590 | so execve finds the tables for the stack page that it maps in the space it leaves |
| `Hang.FailedFaults` | sys/process.c:596-603 | after a failed execve the caller can use the new stack page and the pages that the loader got to, and no other; on each of these the handler's verdict is that of the caller's list, and the handler never returns if and only if the first covering range is not HEAP, STACK or DATA |
| `Hang.MissingFileHangs` | sys/paging.c:496-521 | for one, when no file has the name and the caller's list begins with the text from 0x400000 to 0x400FFF, the fetch at 0x400000 hangs |
| `Hang.HangsAlways` | sys/process.c:596-603 | from every state that such a run reaches, in which a user process runs and ten frames are free, one is reached in which it hangs on each page of its list whose search does not end, the stack page apart |
| `Hang.StrayForkHangs` | sys/process.c:443-443 | a fork by the caller of a failed execve leaves it and its child in the space of the program that was not loaded, where both hang on such a page |
| `Hang.CallerLosesStack` | sys/process.c:586-590 | a failed execve leaves every other process's address space as it was, and the caller's own but for the topmost stack page, which is closed to it and zero |
| `Hang.CallerStackFault` | sys/paging.c:496-528 | so a later fault there is judged by the caller's list alone, and hangs if and only if the first range that covers the page is not HEAP, STACK or DATA |
| `Progress.NullIgnored` | sys/paging.c:507-528 | in a loaded process without a segment on the first page an access to address 0 is ignored by the handler, which changes nothing and kills nobody |
| `Stacks.WriteKeepsInv` | sys/process.c:476-476 | a write to a frame that is not a page table keeps the invariant if and only if a free frame stays zero |
| `Stacks.WriteSeen` | sys/process.c:476-476 | a write to a frame in use for data is seen by no process if and only if no user page lies there or the bytes are the same |
| `Stacks.DirtyTable` | sys/paging.c:586-588 | a free frame that is not zero becomes, uncleared, a page table with those entries |
| `Stacks.StackFrames` | sys/process.c:446-446 | the stack copy of a fork writes to the frames 5693 and 5694 above the control block |
| `Stacks.RunAbove` | sys/paging.c:84-725 | as long as nothing is reclaimed the free frames are those from some frame on |
| `Stacks.FirstForkStack` | sys/process.c:446-476 | so at the first fork each of the two frames is free exactly if memory reaches that far and the allocator has not, and the copy keeps the invariant if and only if those that are free stay zero |
| `Stacks.StackFreeAtBoot` | sys/process.c:446-476 | at the end of start() both are free if memory reaches that far, since the allocator has come no further than the boot-time tables |
| `Pid.OrOne` | sys/process.c:44-46 | or-ing 1 << i sets one bit below 31, and at 31 every bit from there on |
| `Pid.Pids.Next` | sys/process.c:39-50 | the numbers 1 to 32 are handed out in order, each once, and -1 from then on |
| `Strings.UpUndoesAppend` | sys/string.c:73-90 | substr_tillchar undoes the append of one component and its slash |
| `Strings.OctalDecoded` | sys/utils.c:19-29 | atoi followed by octtodec is the value of an octal number |
| `Strings.Strcmp` | sys/string.c:48-62 | 0 exactly for equal strings |
| `Strings.Atoi` | sys/string.c:64-71 | the loop computes the decimal reading of the string |
| `Strings.Octtodec` | sys/utils.c:19-29 | the loop rereads decimal digits in base eight |
| `Strings.Strcpy` | sys/string.c:34-43 | the buffer then holds the source string |
| `Strings.Strcat` | sys/string.c:3-15 | the buffer then holds its old string followed by the source |
| `Strings.SubstrTillChar` | sys/string.c:73-90 | the buffer is cut after its second last slash, or emptied with -1 when that is missing or first |
| `Tarfs.HeaderRead` | sys/tarfs.c:97-106 | name, size and type are recovered from a ustar header block |
| `Tarfs.FileTable.GetParentInode` | sys/tarfs.c:62-84 | the answer is the inode of the earlier entry named by the prefix through the last slash, or -1 |
| `Tarfs.FileTable.AddEntry` | sys/tarfs.c:97-133 | one iteration fills the entry's slot and moves to the next header |
| `Tarfs.FileTable.InitTarfs` | sys/tarfs.c:90-136 | for any image that lays out at most 100 entries the table lists them: names, sizes and types, addresses at which the image has the contents, inodes, and as parent the inode field of the directory's slot |
| `Tarfs.SlotsTell` | sys/tarfs.c:97-134 | every slot has its entry's name, size and type, its recorded address and size delimit the entry's contents in the image, inodes count from 4, and a parent inode is that of the directory's slot, or 0 |
| `Tarfs.ContentsFound` | sys/tarfs.c:118-131 | after its header the image has an entry's contents |
| `Tarfs.LayoutUnambiguous` | sys/tarfs.c:97-134 | an image lays out one list of entries only |
| `Tarfs.ArchiveLaidOut` | sys/tarfs.c:97-134 | every list of well-named entries has an image, which closes the round trip |
| `Tarfs.ParentFound` | sys/tarfs.c:62-84 | a file archived after its directory gets that directory's inode as its parent |
| `Tarfs.DirectoryParentless` | sys/tarfs.c:68-74 | a directory gets parent 0 wherever it lies in the archive |
| `Chdir.AscendedPath` | sys/tarfs.c:334-338 | ".." turns the path of a directory into that of its parent, or the root |
| `Chdir.MovedOk` | sys/tarfs.c:316-372 | every call, failed ones included, leaves both paths at the root or an existing directory |
| `Chdir.MovedAlways` | sys/tarfs.c:316-398 | so does every sequence of calls on an archive that lists parents |
| `Chdir.Descends` | sys/tarfs.c:349-359 | naming a subdirectory enters it exactly if the archive has it |
| `Chdir.DescendsAndReturns` | sys/tarfs.c:316-398 | and ".." then leads back to where the process was |
| `Chdir.EntersHere` | sys/tarfs.c:349-359 | "./name" enters a subdirectory exactly if the archive has it |
| `Chdir.EntersSibling` | sys/tarfs.c:334-348 | "../name" enters a directory beside the current one exactly if the archive has it |
| `Chdir.EntersAbsolute` | sys/tarfs.c:329-332 | "/name" and "/name/" enter a directory at the root from anywhere exactly if the archive has it |
| `Chdir.NestedRelativeFails` | sys/tarfs.c:375-398 | a relative path of two components or more is never entered |
| `Chdir.NestedSiblingFails` | sys/tarfs.c:375-398 | nor is one after "../" |
| `Chdir.NestedAbsoluteFails` | sys/tarfs.c:375-398 | nor is an absolute path of two components or more, from anywhere |
| `Chdir.UpAfterRoot` | sys/tarfs.c:324-343 | after "cd /" a ".." stays at the root if and only if the directory left was at most one level deep |
| `Chdir.FailedMoves` | sys/tarfs.c:316-372 | after any name that is not found the directory is kept, and a later ".." starts from the root if the name was absolute, from the parent if it began with "..", and else from where it would have |
| `Chdir.FailedUnchanged` | sys/tarfs.c:329-342 | a call that does not find its name leaves the process as it was if and only if the name is relative without ".." or the second path is the root |
| `Chdir.FailedAbsolute` | sys/tarfs.c:329-332 | for one, an absolute name that the archive does not have keeps the directory but sends a later ".." to the root |
| `Chdir.Cwd.ChangeDir` | sys/tarfs.c:375-398 | the search as it runs enters the directory exactly when it exists and is a child of the current path, and answers 1 or 999 |
| `Chdir.Cwd.ChangeTo` | sys/tarfs.c:316-372 | chdir as it runs on the path buffers is the specified move, for every argument whose name fits its buffer |
| `Env.InsertedFound` | sys/process.c:804-836 | in the bounded map a set key has its new value and every other key its old one, except the oldest when it had to make room |
| `Env.SetRefines` | sys/process.c:814-827 | setEnv with a key acts on the five slots as insertion acts on the bounded map |
| `Env.SetAllRefines` | sys/process.c:804-828 | so does every sequence of calls |
| `Env.LookupRefines` | sys/process.c:829-837 | printEnv answers as the bounded map does |
| `Env.EmptyKeyUnused` | sys/process.c:814-820 | an empty key changes nothing that is held while a slot is unused |
| `Env.EmptyKeyEvicts` | sys/process.c:821-827 | once all slots are used it evicts the oldest entry |
| `Env.Process.SetEnv` | sys/process.c:804-828 | setEnv as it runs on key=value text that fits the 100-byte buffer and the 50-byte slots is the specified update, and the slots keep fitting |
| `Env.Process.PrintEnv` | sys/process.c:829-837 | the search as it runs finds what the specification says |
| `Env.Process.CopyFrom` | sys/process.c:431-435 | the copying loop of fork and execve makes the child's environment the parent's |

## Left out

- Kernel accesses through KERNEL_ADDR are modelled as accesses to physical memory; `Machine.Machine.SetIdentityPaging` and `Theorems.DirectAlways` are what justifies that.
- load_CR3 and the switch of free_map to its address in the direct map: boot code runs on physical addresses here.
- Running out of frames, more than 64 MiB, and the contiguity of kmalloc's pages: the code guarantees nothing there.
- Kernel-mode stores through read-only leaves, register save and restore, iretq, TLB, TSS, GDT, IDT and device ports: hardware state. A switch assigns the running process and CR3.
- Frames that leak: each fault's scratch page, each loaded segment page's first copy, a remapped page's old frame and sys_exit's extra page stay held, as in the code, and are never returned.
- Page tables of dead processes stay allocated: delete_pagetable is only called from comments; free_kernel_page has no caller.
- mmap and umalloc: small allocators inside one VMA.
- Machine.Machine.PagefaultHandler: an endless loop of the source is a verdict, `Stuck`, since a model must terminate; a HEAP, STACK or DATA range that reaches into the kernel half, which the loader never makes, is excluded.
- Machine.Machine.constructor: free_map's words are an array of their own, and `Machine.Machine.Ram` puts them where they lie; physfree must be a multiple of 8.
- VmaList.CopyList: the p_flags and the file record of a VMA are not carried; apart from this copy no routine reads them.
- Progress.NeverStuckAlways: the kernel taking away a page that a process of the ring needs is excluded; the code does that only to a space that execve leaves. VMA lists that grow after the load are not modelled.
- Theorems.OwnedAlways: a copy to a child's kernel stack that falls into free frames is not among the operations; `Stacks.FirstForkStack` says when it does, and what it breaks.
- Syscalls.Core.Fork: the kmallocs of a call are memory events before it, and `Syscalls.Core.Exec` comes after the mapping of the stack page; the control blocks and VMA nodes are ordinary allocation.
- Kernel.EventKeeps: nor among the events; the accesses that load a program are events of their own, put together in `Exec.StartLoads` and `Exec.FailLoads`.
- Kernel.KernelRefines: nor in the runs.
- Kernel.KernelAlways: nor in the runs.
- Progress.ServedAlways: nor in the runs; a create_user_process whose load fails, which returns no process for the kernel to switch to, is not a move either.
- Exec.StartLoads: the new stack page is filled from a frame of its own, not from the one mapped in the space that is left, so one frame more is taken.
- Stacks.FirstForkStack: the bytes of a kernel stack are not modelled; they are a parameter, and the later writes through TSS rsp0 go to the same frames.
- Process.Processes.Execve: begins at the load; the user stack page and the arguments are part of `Exec.StartLoads`, and splitting the command line into arguments is left out.
- Process.Processes.SysExit: the restart through user_switchBack when pid 1 is next is the separate step `Spawn`; control-block states and saved stack pointers are not modelled.
- Process.Processes.ForkChild: carries the VMA list as a value; the copy of the linked list is `VmaList.CopyList`, and the control block's other fields are copied in `Env` only.
- Process.Processes.Kill: a caller naming its own pid is an exit, and the kernel's own process is not killed, since the search has no predecessor for it.
- Elf.LoadSegmentBecame: memory for VMA nodes is ordinary allocation here, not kmalloc frames; the entry point and the file record of a VMA are left out.
- Elf.ImageLoaded: p_vaddr + p_memsz must not wrap around 64 bits, and p_filesz must fit the int that memcpy counts with.
- Loader.LoadBinaries: the file is a value; reading it does not go through page tables.
- Tarfs.FileTable.InitTarfs: names of 99 or 100 characters, whose terminator the string routines write past the field, are excluded, as are names of one character other than "/", on which the index of get_parent_inode runs below its buffer, and archive members with a link name.
- Strings.Strlen: its two extra NULs are written in the path buffers, not in the archive, where they fall on padding.
- Chdir.Cwd.ChangeTo: arguments and directory names that overflow the path and name buffers are excluded; the byte that an empty name makes the code read before its buffer is a parameter.
- Env.Process.SetEnv: text without "=" runs past its buffer in the source, and longer text, keys or values past the buffer or the slots; these are excluded.
- open, read, opendir and read_dir: table lookups that would add easy members.
- Console output, keyboard, timer, the libc wrappers and the programs in bin, except as the evidence for the fork-then-wait discipline (bin/init/init.c, bin/sbush/sbush.c).
