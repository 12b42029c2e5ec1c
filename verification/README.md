# uniOS: models and proofs

Dafny models of the algorithmic parts of uniOS, with proofs about all inputs and all runs. Code that
works in place is modelled in place: classes with fields, arrays and loops, each method proved against
a specification, and the properties proved about the specification.

Check everything with `dafny verify dfyconfig.toml`.

## How the modules fit together

**Memory.** `Bits`, `Words` and `Bitmap` refine the word-at-a-time bitmap searches to naive searches.
`Frames` is the physical memory manager as a value; `PhysicalMemory` is the manager itself, with
`pmm_init`; `FrameRuns` proves conservation over every run of calls. `PageTable` defines four-level
page tables (Intel SDM volume 3A, section 4.5), the page walk and how often an address space refers to
each frame. `Mapping` and `TableWalk` prove that the radix tree is a map from pages to frames and flags.
`Cloning` and `AddressSpace` prove that cloning copies that map, and what cloning, freeing, mapping and
splitting cost in frames. `Rights` is what the processor lets user code do with a page, with the bits of every
table on the way (Intel SDM volume 3A, section 4.6), through cloning, mapping and splitting. `PteBits` and
`FlagBits` tie entries and flags to the 64-bit masks of the code. `Vma` is the list of areas. `CopyOnWrite` states the invariant of a whole system of processes and proves that new processes,
forks, stores, faults and exits keep it; `Permissions` adds that tables take nothing from a page and pages allow no
more than their areas; `KernelHalf` is the half of every address space that the kernel keeps
for itself, in reserved tables, and `Clearing` what unmapping a range does to either half. `MemoryCalls` has
mmap, munmap and mprotect; `Kernel` proves that every process reads its private memory as if it were alone, and
implements the operations. `Protection` follows the permissions through every run. `SharedFrame` and `DirectMap` are concrete systems of two processes. `Dma` is the
allocator of device address ranges. `PageTracker`, `HeapState`, `HeapPages`, `Alignment` and `KernelHeap` are the kernel
heap, and `HeapFrames` is the heap on top of the physical memory manager. `Options` is shared by all.

**Files and pipes.** `PageCache` is the write-back page cache over plain files; `Pipes` is the pipe as
a step system and as a ring buffer.

**Boot and tools.** `BootMap` is the memory-map overlay, `BootPaging` the page-table sizing and building
passes, and `BootPlan` what the two together make of a memory map. `Handover` takes the finished tables to
the kernel: reserved, a tree on which the kernel's walks and splits work, and the start of every run. `Qoi`
is the image encoder with the decoder of the GUI library (QOI specification 1.0). `FatLayout`, `FatVolume`,
`FatBoot`, `FatRecords` and `FatBuilder` are the FAT32 image builder and a reader that takes the geometry from the
boot sector and follows entries and chains (Microsoft FAT specification); `FatChains` shows whose clusters are whose, and `FatPaths` reads a finished
volume by path.

**Display.** `Damage` is the window manager's damage queue, `Framebuffer` the dirty rectangles between
the back buffer and the screen.

## Where the code falls short of the obvious property

Each of these has the exact condition proved, and where it helps a concrete case.

- `sys_mprotect` does not keep copy-on-write. It gives write permission without asking who else holds the
  frame, and takes PTE_SHARED from shared pages. It keeps the system invariant exactly when the range has
  no shared area and, to allow writing, no frame that others hold (`MemoryCalls.ProtectExact`); where two
  processes hold a frame, one then reads what the other writes (`Kernel.ProtectBreaks`, and
  `SharedFrame.LosesIsolation` for a concrete run). `Kernel.Isolation` is about runs in which mprotect is
  used within that condition.
- `sys_mprotect` gives its flags to whole areas, but only to the pages of the range. Pages then stay within what
  their areas allow if and only if no page beside the range, in an area that reaches into it, allows more than was
  asked for (`Protection.ProtectPermits`). On every machine with room for it, mmap of two pages for writing and
  mprotect of the first for reading leave the second writable in an area that is not (`Protection.LosesProtection`).
  No other step lets a page have more than its area (`Protection.StepPermitted`).
- `munmap_process_range` has no upper bound. A range in the kernel half takes tables and pages from the kernel and
  lowers counts of frames that others hold. The system stays good all the way through the range if and only if
  every kernel page of it is not mapped, or is frame 0, or lies in a 2 MiB page that cannot be split for want of
  a free frame and is a frame that nobody counts (`MemoryCalls.UnmapExact`; this condition, `Clearing.MayUnmap`,
  is about the state before the call). In the
  concrete run of `DirectMap.FreesForeign` a process without any page makes a page of another process free, and
  the next to be handed out. `Kernel.Isolation` is about runs in which munmap is used within that condition.
- The walk looks at 48 bits of an address, so `munmap_process_range` at an address outside the user half can clear
  user pages (`Clearing.TurnsAround`), past the test for text and stack areas. Which pages a range clears is exactly
  `Clearing.OnWayExact`; for ranges in the user half it is the pages of the range (`Clearing.OnWayPlain`).
- `sys_mprotect` rounds its length in 64 bits, so that the lengths above 2^64 - 4096, and no others but 0, round to
  nothing (`MemoryCalls.WrapsToNothing`): no page is touched, but an area around the address still gets the flags
  (`Kernel.Machine.Mprotect`).
- Splitting a huge page drops PTE_SHARED (`Mapping.SplitExact`): translations survive entirely exactly
  when the page was not marked shared.
- `pmm_refcount_inc` on a frame that is not in use breaks the manager's invariant
  (`Frames.IncRefKeepsValid`), and counting and releasing a reserved frame makes it free
  (`FrameRuns.ShareRelease`).
- The free-byte counter of `pmm_init` is right exactly when no two usable entries share a frame
  (`PhysicalMemory.Manager.MarkUsable`).
- The first-fit placement of the manager's tables can fail although both would fit
  (`PhysicalMemory.Place`, `PhysicalMemory.FirstFitGivesUp`).
- An address inside frame 0, other than its start, passes the null test of `pmm_refcount_dec` and takes a
  reference from frame 0: exactly then, and if frame 0 is held, the call differs from releasing a frame, and
  the manager stays consistent exactly if more than one reference was held (`PhysicalMemory.Manager.Dec`).
  `pmm_alloc_frame` never hands frame 0 out all the same (`PhysicalMemory.Manager.Alloc`).
- A long extending write can lose its own pages, because the size of the file is raised only after the
  loop (`PageCache.SafeExactly`, `PageCache.UnsafeLoses`).
- `choose_fat32_layout` tries seven cluster sizes, but whenever any works the first does
  (`FatLayout.ChooseLayout`). FAT links are links only below 0x0FFFFFF8 (`FatVolume.LinkReads`), which
  holds for all of them exactly up to 272696360 sectors (`FatLayout.LayoutLinks`).
- `get_next_level` takes bit 7 of a top-level entry, which has no meaning for the page walk, for a huge
  page and gives up, so that `vmm_map_page_in` always fails there (`AddressSpace.Tables.MapPage`) although
  the page may be mapped (`TableWalk.MarkedIsMapped`). No address space built by this code has such an entry
  (`TableWalk.OwnedUnmarked`).
- `map_direct_range` steps by pages from an unaligned base and can miss the last page of the range
  (`BootPlan.RangeWhole`, `BootPlan.HalfPageMissed`), and the sizing pass fails for every range that ends in
  the last GiB of the direct map (`BootPaging.Estimator.AddDirect`).
- `patch_hidden_sectors` leaves the backup of the boot sector as it was: the two agree if and only if the number did
  not change (`FatBoot.StaleBackup`). A volume is found again by its label if and only if the label has at most
  eleven characters and neither starts nor ends with a blank (`FatBoot.LabelBack`).
- The rounded start of a usable entry in the last 4095 bytes of the address space wraps around to 0
  (`PhysicalMemory.UsableWraps`); `pmm_init` gives up on such a map before it gets there.
- Two names of a directory that differ in case only become one 8.3 name in the image (`FatPaths.CaseClash`). Every
  entry of a directory is the one its name leads to if and only if no two names of the directory are one 8.3 name
  (`FatPaths.DirectoryExact`); then every file is read by its path (`FatPaths.BuildAndRead`).
- In the sub-directories of the root the entry `..` names cluster 2 (`FatPaths.UpLeads`), where the FAT specification
  asks for 0.
- Once a list has its sentinel, `vma_add` refuses every range that starts at 0 (`Vma.AreaList.Add`).
- `realloc` keeps alignments of up to one page only: `heap_observed_alignment` stops at 4096
  (`Alignment.ObservedExact`). A block that began on a page moves to one page behind the start of its new pages,
  so a larger alignment survives exactly if that address has it (`KernelHeap.Heap.Realloc`, `KernelHeap.LosesAlignment`).

## Model

| member | source | states |
|---|---|---|
| `Kernel.Isolation` | src/mm/vmm.cpp:403-957 | In every run of new processes, forks, failed forks, stores, page faults, mmap, munmap and mprotect (where they may), kernel allocations and exits, every process reads each of its private addresses exactly as if it had a memory of its own, copied by fork, changed by its own stores and cleared by its own munmap; the system invariant holds throughout, and the kernel half stays what it was in every address space |
| `Kernel.IsolationFromBoot` | src/mm/vmm.cpp:380-957 | The same for every run that starts before the first process, with a consistent physical memory manager and a kernel half in tables that are in use, held or reserved |
| `Kernel.LoadsFromBoot` | src/mm/vmm.cpp:863-957 | In every run from boot on, what user code loads from a private address, through all tables on the way, is the byte of its own memory, if the page is there |
| `Kernel.BootGood` | src/mm/pmm.cpp:58-196 | The system invariant holds before the first process, with the kernel's tables reserved |
| `Kernel.StepKeepsGood` | src/mm/vmm.cpp:403-957 | Every single step of the system keeps the invariant: exact reference accounting, trees of exclusively owned tables, writable private pages held once, and one kernel half in all address spaces |
| `Kernel.StepAgrees` | src/mm/vmm.cpp:403-957 | One step of the machine is the matching step of separate private memories: fork copies a memory, a store changes one byte of one memory, munmap clears in one what its range leads to, faults, mmap and mprotect change none |
| `Kernel.ProtectBreaks` | src/kernel/core/syscall.cpp:1360-1406 | What sys_mprotect does to copy-on-write: after a fork, write permission for a page still held by both lets the child read what the parent writes, so the system no longer agrees with separate memories |
| `Kernel.NoLeaks` | src/mm/vmm.cpp:509-544 | When the last process is gone, every reference count is exactly what the kernel itself holds |
| `Kernel.WritableIsOwn` | src/mm/vmm.cpp:403-452 | A page that user code can write and that is not shared is never a page table of any process nor a frame of the kernel |
| `Kernel.CloneThenFree` | src/mm/vmm.cpp:454-544 | Freeing a fresh clone restores every reference count to its value before the clone |
| `Kernel.Machine.ForkProcess` | src/kernel/sched/scheduler.cpp:889-937 | A fork is one step of the system. Parent and child may then use every user page as the parent could before, the bits of all tables on the way counted in, but may write it only if it is shared. It takes exactly as many frames as the address space has tables, fails only with fewer free or without room for the copy of the area list, and a failed fork leaves all counts and the free memory as they were |
| `Kernel.ForkUse` | src/mm/vmm.cpp:403-507 | After a fork the processor grants parent and child, at every user page, what it granted the parent, with write permission only where the page is shared |
| `Kernel.Machine.HandlePageFault` | src/mm/vmm.cpp:863-957 | Every outcome is a step that no private read can notice. Refused faults change nothing; any other fault fails only with fewer than four free frames and only if the page is not there or others hold its frame; on success user code reaches the page through all its tables, may write and execute it exactly if the area found at the address may be, and the page has the attribute bits of that area |
| `Kernel.Machine.DemandZero` | src/mm/vmm.cpp:903-920 | A page that was not there is mapped to a frame nobody held, filled with zeros, for user code and with the permissions and attributes of its area; on failure the frame is given back |
| `Kernel.Machine.BreakSharing` | src/mm/vmm.cpp:928-953 | A private page that others hold is copied and its old frame loses one reference; a page held once is reused, which cannot fail; both keep all private reads and leave the page with the permissions and attributes of its area |
| `Kernel.Machine.ReflagShared` | src/mm/vmm.cpp:922-926 | A shared page keeps its frame and its shared bit and gets the permissions and attributes of its area |
| `Kernel.Machine.MapTaken` | src/mm/vmm.cpp:911-946 | Mapping a frame just taken either maps it or gives it back, with every count restored |
| `Kernel.Machine.SpawnProcess` | src/mm/vmm.cpp:380-394 | A new process with an empty address space is a step of the system; it fails exactly when no frame is free, and then changes nothing |
| `Kernel.Machine.ExitProcess` | src/mm/vmm.cpp:528-544 | The exit of a process is a step of the system: it gives back exactly what its address space referred to |
| `Kernel.Machine.Store` | src/mm/vmm.cpp:863-957 | A store goes through exactly when the page is present and writable, which is what the processor decides from all entries on the way, and then is a Write step |
| `Kernel.Machine.Mmap` | src/kernel/core/syscall.cpp:1664-1868 | Anonymous mmap returns the lowest page-aligned place from 4 GiB on that is vacant and ends below the stack; all pages are mapped to zeroed frames and the area is entered, as one step of the system; user code may then use every byte, write it exactly if that was asked for, and the area ends less than a page behind the last byte; it fails only without a place, without list nodes or with fewer than four frames a page, and then nothing but emptied tables is left of it |
| `Kernel.Machine.MmapAt` | src/kernel/core/syscall.cpp:1825-1865 | Pages first, then the area; if either fails everything is undone |
| `Kernel.Machine.FillAll` | src/kernel/core/syscall.cpp:1825-1849 | As many pages as could be filled, and how the attempt for the next one ended |
| `Kernel.Machine.FillOne` | src/kernel/core/syscall.cpp:1826-1848 | One page: a frame nobody held, zeroed and mapped, or given back |
| `Kernel.Machine.Munmap` | src/kernel/core/syscall.cpp:360-402 | Any address and length: succeeds exactly for an aligned nonempty range from above 0 within 64 bits that meets no text or stack area, with room for a split, and otherwise changes nothing; the system stays good through all its pages if and only if it may be called on the range, and then it is one step of the system; the final state is the last of these with the areas cut |
| `Kernel.Machine.ClearAll` | src/kernel/core/syscall.cpp:391-397 | The states the pages of any range go through: while the system is good, each page that is mapped is unmapped and its frame loses one reference |
| `Kernel.Machine.ClearOne` | src/kernel/core/syscall.cpp:392-396 | One page at any address: a mapped user page is unmapped without a new frame, a kernel page is unmapped where its tables allow it, and the frame loses one reference |
| `Kernel.Machine.Mprotect` | src/kernel/core/syscall.cpp:1360-1406 | The three results exactly as written, 64-bit rounding included; the areas it meets get the flags as a whole, every page of the range keeps its frame; the system invariant survives if and only if the range has no shared area and, to allow writing, no frame that others hold; every page of the range and every area that has an address of it then allow writing and executing exactly as asked |
| `Kernel.Machine.PagesMapped` | src/kernel/core/syscall.cpp:1378-1381 | True exactly if every page of the range is mapped |
| `Kernel.Machine.ReflagAll` | src/kernel/core/syscall.cpp:1397-1403 | Every page of the range is mapped again with the new flags, and never fails to be |
| `Kernel.FaultStart` | src/mm/vmm.cpp:901 | What the fault handler computes as the physical page of an address is what the page walk finds |
| `CopyOnWrite.Exclusive` | src/mm/vmm.cpp:403-452 | A frame whose count is 1 is mapped at one place only, in the whole system |
| `CopyOnWrite.WriteIsPrivate` | src/mm/vmm.cpp:863-957 | A store is seen by its own process at its own address and by no private address elsewhere |
| `CopyOnWrite.SpawnKeepsInv` | src/mm/vmm.cpp:380-394 | A new address space keeps the system invariant |
| `CopyOnWrite.SpawnReads` | src/mm/vmm.cpp:380-394 | A new process reads zeros, and nobody else notices it |
| `CopyOnWrite.ForkKeepsInv` | src/mm/vmm.cpp:403-507 | A successful clone keeps the system invariant, with the child's references accounted for |
| `CopyOnWrite.ForkReads` | src/mm/vmm.cpp:403-507 | The child reads what the parent reads, and nobody else notices the fork |
| `CopyOnWrite.ForkPage` | src/mm/vmm.cpp:403-452 | After a fork a page of parent or child has the frame and kind it had in the parent, and is writable only if it was and, in the two, only if it is shared |
| `CopyOnWrite.ForkFailsKeepsInv` | src/mm/vmm.cpp:454-507 | A failed clone may leave write permissions cleared, but keeps the invariant |
| `CopyOnWrite.ExitKeepsInv` | src/mm/vmm.cpp:509-544 | Freeing one address space keeps the invariant of all others |
| `CopyOnWrite.ExitKeepsReads` | src/mm/vmm.cpp:509-544 | Freeing one address space changes no read of any other process |
| `CopyOnWrite.FaultKeeps` | src/mm/vmm.cpp:863-957 | Each way a page fault can end keeps the invariant and what every process reads |
| `CopyOnWrite.FaultFresh` | src/mm/vmm.cpp:903-946 | Mapping a newly taken frame over a page that reads the same keeps the invariant and all reads |
| `CopyOnWrite.WeakerSpace` | src/mm/vmm.cpp:403-452 | Lost write permissions change neither what an address space refers to nor where it translates |
| `MemoryCalls.UnmapExact` | src/kernel/core/syscall.cpp:360-402 | munmap keeps the system good all the way if and only if no page of the range is one of the kernel's at which something happens, a condition on the state before the call |
| `MemoryCalls.UnmapKeeps` | src/kernel/core/syscall.cpp:360-402 | Where it may be called, munmap keeps the system invariant and the kernel half: areas, pages and reference counts stay in step |
| `MemoryCalls.UnmapReads` | src/kernel/core/syscall.cpp:360-402 | After munmap what the range leads to reads as zeros for its process, and nothing else changed for anybody |
| `MemoryCalls.CutAreas` | src/kernel/core/syscall.cpp:385 | Cutting whole pages out of the areas concerns the addresses of the range only and keeps the list well formed |
| `MemoryCalls.AnyFixed` | src/kernel/core/syscall.cpp:374-382 | True exactly if a text or stack area meets the range |
| `MemoryCalls.ProtectExact` | src/kernel/core/syscall.cpp:1360-1406 | mprotect keeps the system invariant if and only if no area of the range is shared and, where it allows writing, nobody else holds a frame of the range |
| `MemoryCalls.ProtectKeepsInv` | src/kernel/core/syscall.cpp:1360-1406 | Under that condition the invariant is kept |
| `MemoryCalls.ProtectReads` | src/kernel/core/syscall.cpp:1360-1406 | Under that condition no private read changes |
| `MemoryCalls.ProtectShares` | src/kernel/core/syscall.cpp:1397-1403 | Where two processes hold one frame, what one writes after mprotect is read by the other |
| `MemoryCalls.ProtectServes` | src/kernel/core/syscall.cpp:1383-1403 | After mprotect every page of the range, and every area that has an address of it, allows what was asked for |
| `MemoryCalls.WrapsToNothing` | src/kernel/core/syscall.cpp:1360-1406 | The lengths that 64-bit rounding makes nothing of are 0 and exactly those above 2^64 - 4096 |
| `MemoryCalls.PagesMeans` | src/kernel/core/syscall.cpp:1664-1673 | The pages of a length are as many as it needs and no more; sys_mprotect counts the same exactly up to 2^64 - 4096 |
| `MemoryCalls.MeetsMeans` | src/kernel/core/syscall.cpp:374-395 | An area is one of the range if and only if they have an address in common |
| `MemoryCalls.RetagAll` | src/kernel/core/syscall.cpp:1390-1395 | The loop gives the flags to every area that meets the range, as a whole |
| `MemoryCalls.RetaggedOk` | src/kernel/core/syscall.cpp:1390-1395 | The new flags suit the list if and only if no area of the range is shared |
| `MemoryCalls.FindGap` | src/kernel/core/syscall.cpp:1679-1708 | The restarting search ends with the lowest vacant place, and with none exactly if there is none |
| `MemoryCalls.AddKeepsInv` | src/kernel/core/syscall.cpp:1854 | A new private area in a vacant range keeps the invariant, and nothing was mapped there |
| `MemoryCalls.MmapKeeps` | src/kernel/core/syscall.cpp:1664-1868 | mmap keeps the invariant; the new memory reads as zeros, and no private read changes |
| `MemoryCalls.FillServes` | src/kernel/core/syscall.cpp:1825-1849 | Every page mmap fills can be used by user code as its area says |
| `MemoryCalls.MmapFailKeeps` | src/kernel/core/syscall.cpp:1827-1865 | A failed mmap keeps the invariant, leaves no reference behind and changes no private read |
| `Rights.AccessExact` | src/mm/vmm.cpp:113-190 | User code may reach, write or execute a page if and only if the page and every table on the way allow it |
| `Rights.AccessLinks` | src/mm/vmm.cpp:113-190 | What the processor makes of a page is the page narrowed by the entries on the way and nothing else |
| `Rights.CopyAccess` | src/mm/vmm.cpp:403-507 | The copy of an address space may be used as its source, page by page and with all tables counted in, but for writing pages that are not shared |
| `Rights.OpenCopy` | src/mm/vmm.cpp:440-507 | If no table of the source forbids anything, no table of the copy does |
| `Rights.GraftLinks` | src/mm/vmm.cpp:113-190 | Taking a table or splitting a huge page adds one entry to the ways and changes no other |
| `Rights.GraftNew` | src/mm/vmm.cpp:113-190 | That entry allows what the huge page allowed; where nothing was mapped it allows writing and execution, and user mode for user addresses |
| `Rights.LinkedAccess` | src/mm/vmm.cpp:206-240 | Walks that take or split tables do not change what any page may be used for |
| `Rights.OpenLinked` | src/mm/vmm.cpp:160-190 | A user half whose tables forbid nothing stays so through every walk |
| `Permissions.ForkAccess` | src/mm/vmm.cpp:403-507 | After a fork the child has the parent's rights at every user page, write dropped exactly for pages that are not shared |
| `Permissions.ForkRights` | src/mm/vmm.cpp:403-507 | A fork keeps that tables take nothing from user pages, and that pages allow no more than their areas |
| `Permissions.FaultRights` | src/mm/vmm.cpp:863-957 | So does every outcome of a page fault |
| `Permissions.MapRights` | src/mm/vmm.cpp:218-240 | So does mapping any page with the user bit; pages stay within their areas if the new one does |
| `Permissions.LoadExact` | src/mm/vmm.cpp:113-190 | User code gets a byte if and only if the page is there, and it and every table on the way are for user code |
| `Permissions.LoadIsRead` | src/mm/vmm.cpp:863-957 | User code can load from every private page there is, and gets what the process reads |
| `Protection.StepPermitted` | src/mm/vmm.cpp:403-957 | From a state in which no page can be written or executed unless its area can, every step of the system leads to such a state, mprotect if and only if no page beside its range allows more than was asked for |
| `Protection.RunPermitted` | src/mm/vmm.cpp:403-957 | So it is in every run whose mprotects are of that kind |
| `Protection.PermittedFromBoot` | src/mm/vmm.cpp:380-957 | And in every such run from boot on |
| `Protection.ProtectPermits` | src/kernel/core/syscall.cpp:1383-1403 | The exact condition for mprotect, on the state before the call |
| `Protection.WriteInArea` | src/mm/vmm.cpp:863-957 | In such a state every write of user code goes to an address whose area is writable |
| `Protection.LosesProtection` | src/kernel/core/syscall.cpp:1383-1403 | On every machine with room for two more pages: a page that can be written in an area that cannot |
| `SharedFrame.BothInv` | src/mm/vmm.cpp:403-452 | A concrete system of two processes that hold one frame copy-on-write |
| `SharedFrame.LosesIsolation` | src/kernel/core/syscall.cpp:1360-1406 | A concrete run: after sys_mprotect by the first process, the second one reads whatever the first one writes |
| `DirectMap.SystemGood` | src/mm/vmm.cpp:380-394 | A concrete system of two processes over a kernel half that maps memory with one 2 MiB page in reserved tables |
| `DirectMap.FreesForeign` | src/kernel/core/syscall.cpp:1870-1875 | A concrete run: munmap by a process without pages makes a frame free that another process has mapped, and the next allocation returns it |
| `KernelHalf.UpperWalks` | src/mm/vmm.cpp:380-394 | Every process translates kernel addresses exactly as the kernel's own tables do |
| `KernelHalf.SpaceTree` | src/mm/vmm.cpp:380-394 | A whole address space, the owned user half and the shared reserved kernel half, is one tree |
| `KernelHalf.NotOwn` | src/mm/vmm.cpp:403-452 | No kernel table is a table of a user half |
| `KernelHalf.SparedIntact` | src/mm/vmm.cpp:380-544 | What leaves the kernel's tables and the upper halves alone keeps the kernel half |
| `KernelHalf.ForkSpares` | src/mm/vmm.cpp:454-507 | A fork leaves the kernel half alone and gives it to the child |
| `KernelHalf.ForkFailSpares` | src/mm/vmm.cpp:454-507 | So does a fork that fails, whatever tables it had written before |
| `KernelHalf.ExitSpares` | src/mm/vmm.cpp:509-544 | An exit gives back no table of the kernel |
| `KernelHalf.FaultGood` | src/mm/vmm.cpp:863-957 | Every outcome of a page fault keeps the invariant and the kernel half |
| `Clearing.SamePath` | src/mm/vmm.cpp:281-290 | Two addresses lead to one page exactly if their page numbers agree in 36 bits |
| `Clearing.OnWayExact` | src/kernel/core/syscall.cpp:391-397 | The pages a range leads to, wrapped around every 2^48 bytes |
| `Clearing.OnWayPlain` | src/kernel/core/syscall.cpp:391-397 | A range in the user half leads to its own pages and no others |
| `Clearing.TurnsAround` | src/mm/vmm.cpp:281-290 | Addresses 2^48 bytes apart lead to one page |
| `Clearing.ClearUser` | src/kernel/core/syscall.cpp:392-396 | Clearing a user page, at whatever address, keeps the system good and zeroes that page only |
| `Clearing.BadStep` | src/kernel/core/syscall.cpp:392-396 | Clearing any other page of the kernel half that is mapped breaks the kernel half or the books |
| `Clearing.PassReached` | src/kernel/core/syscall.cpp:391-397 | The states of a range are all good exactly if every kernel page of it is harmless when its turn comes, as the state before tells; then exactly the user pages on the way are cleared |
| `Clearing.ClearRange` | src/kernel/core/syscall.cpp:391-397 | Under that condition the range keeps the system good and clears exactly what it leads to |
| `PageTable.WeakerRefs` | src/mm/vmm.cpp:403-452 | Clearing write permissions anywhere below an entry leaves the number of references to every frame unchanged |
| `PageTable.WeakerWalk` | src/mm/vmm.cpp:403-452 | Clearing write permissions leaves every translation alone or clears its write bit |
| `PageTable.WeakerTables` | src/mm/vmm.cpp:403-452 | Clearing write permissions does not change the number of tables a copy needs |
| `Cloning.CopyLeaf` | src/mm/vmm.cpp:411-425 | Copying one page: both sides lose write permission unless it is shared, its frame gains one reference, and the copied prefix stays an exact copy |
| `Cloning.CopyNode` | src/mm/vmm.cpp:427-448 | Hooking in a finished copy of a child table extends the copied prefix by one entry, with references and translations exact |
| `Cloning.NodeWalk` | src/mm/vmm.cpp:427-448 | Translations through a copied table equal the original's with write permission removed |
| `Cloning.StepKeeps` | src/mm/vmm.cpp:403-452 | Later work on the source never disturbs what has been copied so far |
| `AddressSpace.UnfinishedCopy` | src/mm/vmm.cpp:403-452 | Tearing down an unfinished copy restores every reference count |
| `AddressSpace.Tables.CloneLevel` | src/mm/vmm.cpp:403-452 | On success the target is an exact copy and exactly one frame per table was taken; on failure all counts are as before and there were too few free frames; it panics only where a count would overflow or a huge page is met |
| `AddressSpace.Tables.CloneEntry` | src/mm/vmm.cpp:427-448 | One child table: copied and hooked in, or given back with the copy as far as it was |
| `AddressSpace.Tables.CloneLeaf` | src/mm/vmm.cpp:411-425 | One page entry of the copy, with the 16-bit overflow panic |
| `AddressSpace.Tables.CloneUserHalf` | src/mm/vmm.cpp:470-496 | The loop over the user half with its cleanup: all copied, or every count restored and the new top-level table given back |
| `AddressSpace.Tables.CloneAddressSpace` | src/mm/vmm.cpp:454-507 | Resource-atomic clone: success takes exactly one frame per table and makes an address space with the same translations; failure happens exactly with fewer free frames than tables and restores every count |
| `AddressSpace.Tables.CreateAddressSpace` | src/mm/vmm.cpp:380-394 | An empty user half and the kernel half of the kernel table in one new frame; fails exactly when no frame is free |
| `AddressSpace.Tables.FreeEntry` | src/mm/vmm.cpp:509-526 | One entry gives back exactly what it and everything below it refers to |
| `AddressSpace.Tables.FreeLevel` | src/mm/vmm.cpp:509-526 | Every page and table below a table is given back, once per reference |
| `AddressSpace.Tables.FreeAddressSpace` | src/mm/vmm.cpp:528-544 | Counts fall by exactly the references of the address space, its top-level table included; nothing happens for null or the kernel's own table |
| `AddressSpace.Tables.AllocTable` | src/mm/pmm.cpp:198-222 | A table comes from a free frame and is empty; it fails exactly when no frame is free |
| `Mapping.SplitWalk` | src/mm/vmm.cpp:113-152 | Splitting a 1 GiB or 2 MiB page keeps the frame and the flags of every 4 KiB page in it, except that PTE_SHARED is lost |
| `Mapping.SplitExact` | src/mm/vmm.cpp:127-148 | A split keeps a translation entirely if and only if the huge page was not marked shared |
| `Mapping.VirtToPhysIsWalk` | src/mm/vmm.cpp:281-313 | The address arithmetic of vmm_virt_to_phys_in, huge pages included, is the page walk |
| `Mapping.HugeAddress` | src/mm/vmm.cpp:295-305 | Adding the offset in a huge page to its base is resolving it to a 4 KiB page first |
| `Mapping.GraftKeeps` | src/mm/vmm.cpp:154-190 | Hooking in a table, new or from a split, changes no translation and keeps the tables a tree |
| `Mapping.LeafWrite` | src/mm/vmm.cpp:218-240 | Writing one last-level entry changes exactly one translation |
| `Mapping.TwoPaths` | src/mm/vmm.cpp:154-190 | A table reached in two ways is counted twice, so tables held once form a tree |
| `Mapping.OwnedTree` | src/mm/vmm.cpp:154-190 | Tables that are each held once form a tree: no two paths lead to one table |
| `Mapping.RefsAlong` | src/mm/vmm.cpp:218-240 | Replacing one entry replaces exactly its references in the count of the whole tree |
| `TableWalk.StepSplit` | src/mm/vmm.cpp:113-190 | The effect of a split on translations, tree shape and counts of the whole address space |
| `TableWalk.StepAttach` | src/mm/vmm.cpp:168-189 | The effect of a new table on translations, tree shape and counts of the whole address space |
| `TableWalk.StepFailed` | src/mm/vmm.cpp:154-178 | A step that finds no frame changes no translation, no table and no count |
| `TableWalk.MapLeaf` | src/mm/vmm.cpp:218-240 | Writing the last-level entry after a walk maps that page and no other, and the counts change by the old page, the new page and the tables taken |
| `TableWalk.BlockedWalk` | src/mm/vmm.cpp:154-170 | Where a walk that takes no tables stops below the top level, nothing is mapped |
| `TableWalk.OwnedUnmarked` | src/mm/vmm.cpp:154-170 | In an address space built by this code no top-level entry of the user half has bit 7 set |
| `TableWalk.MarkedIsMapped` | src/mm/vmm.cpp:154-170 | A concrete foreign table with bit 7 at the top: the page walk maps a page that get_next_level cannot reach |
| `AddressSpace.Tables.SplitHugePage` | src/mm/vmm.cpp:113-152 | 512 entries that continue the huge page; it happens exactly for a present huge entry at level 2 or 3 with a free frame, and costs one frame |
| `AddressSpace.Tables.GetNextLevel` | src/mm/vmm.cpp:154-190 | Finds, splits or adds the next table and keeps every translation; it gives up only without free frames, on bit 7 at the top level, or on an absent entry it may not fill |
| `AddressSpace.Tables.Descend` | src/mm/vmm.cpp:225-235 | The three steps to a last-level table: no translation changes, at most three frames are taken, and the reasons for not arriving are listed |
| `AddressSpace.Tables.MapPage` | src/mm/vmm.cpp:218-240 | Done: exactly one translation changed, to the given frame and flags. Failed: none changed, and bit 7 is set at the top or fewer than three frames were free and some were needed; with bit 7 set it always fails. The two consistency panics exactly as written |
| `AddressSpace.Tables.UnmapPage` | src/mm/vmm.cpp:357-372 | Afterwards the page is not mapped and no other page changed, unless a huge page could not be split for lack of frames or bit 7 is set at the top |
| `AddressSpace.Tables.SetPageFlags` | src/mm/vmm.cpp:551-580 | A mapped page keeps its frame and its present, user and shared bits and takes the new flags; nothing else changes; only the listed obstacles prevent it |
| `PteBits.Compose` | src/mm/vmm.cpp:237 | The 64-bit entry phys or flags decodes to that frame and those flags |
| `PteBits.CloneBits` | src/mm/vmm.cpp:411-424 | The masks used in cloning keep the decoded entry, and clearing the write mask clears exactly the write flag |
| `PteBits.SplitBits` | src/mm/vmm.cpp:127-132 | The flag masks of a split decode to the old flags without huge and without PTE_SHARED |
| `PteBits.KeepBits` | src/mm/vmm.cpp:574-578 | The masks of vmm_set_page_flags or the preserved bits into the new flags and keep the frame |
| `FlagBits.DownBits` | src/mm/vmm.cpp:411-424 | Dropping the write permission is clearing the write bit of present, writable entries that are not shared |
| `FlagBits.SplitFlagBits` | src/mm/vmm.cpp:127-132 | The flags a split hands down are those of the masks |
| `FlagBits.KeepFlagBits` | src/mm/vmm.cpp:574-578 | The flags vmm_set_page_flags writes are those of the masks |
| `FlagBits.NewTableBits` | src/mm/vmm.cpp:174-184 | The entry for a new table has PTE_PRESENT and PTE_WRITABLE, PTE_USER exactly for user addresses, and no other bit |
| `FlagBits.MapFlagBits` | src/mm/vmm.cpp:889-894 | The flags of a faulted page are those of its area with PTE_PRESENT and PTE_USER |
| `FlagBits.ProtFlagBits` | src/kernel/core/syscall.cpp:1383-1387 | The flags of mprotect, bit by bit |
| `FlagBits.AnonFlagBits` | src/kernel/core/syscall.cpp:1710-1712 | The flags of anonymous memory, bit by bit |
| `Vma.AreaList.FindArea` | src/mm/vma.cpp:7-15 | The area returned has the address; none is returned only if no area has it |
| `Vma.AreaList.Add` | src/mm/vma.cpp:17-59 | Accepted exactly for 0 < start < end meeting no area, with allocation succeeding; then rights change on exactly the new range and the list stays sorted and disjoint; otherwise nothing is added |
| `Vma.AreaList.Unmap` | src/mm/vma.cpp:76-120 | Removes the rights of exactly [start, end) and keeps them everywhere else; fails exactly for empty ranges and for a range strictly inside one area without a node for the split, and then leaves the list as it was |
| `Vma.AreaList.UnmapAt` | src/mm/vma.cpp:82-118 | One turn of the loop replaces an area by the parts outside the range; fails exactly when a split finds no node |
| `Vma.CloneList` | src/mm/vma.cpp:122-142 | All or nothing: the same list if there is room for every node, else none |
| `Vma.FindAt` | src/mm/vma.cpp:7-15 | In a sorted disjoint list the area of an address is unique |
| `Vma.InsertLookup` | src/mm/vma.cpp:37-57 | Inserting a vacant range changes the rights of exactly its addresses and keeps order and disjointness |
| `Vma.CutsLookup` | src/mm/vma.cpp:76-120 | Cutting a range out of every area removes the rights of exactly that range |
| `Vma.CutsSorted` | src/mm/vma.cpp:76-120 | Cutting keeps the list sorted and disjoint |
| `Dma.Window.Alloc` | src/mm/vmm.cpp:626-656 | The first free slot that is large enough is used, from its front, and the window grows only if there is none; the range is disjoint from all others; panics exactly when no slot fits and the request is too large or the window is used up |
| `Dma.Window.Free` | src/mm/vmm.cpp:658-718 | Free, allocated and leaked ranges still tile the consumed window and no two free ranges touch; the range leaks exactly when all slots are taken and none touches it |
| `Dma.Window.Coalesce` | src/mm/vmm.cpp:696-716 | The restarting loops end, leave no two adjacent ranges and keep the covered addresses |
| `Dma.Window.Insert` | src/mm/vmm.cpp:666-694 | Joins a neighbour or fills an empty slot; fails exactly when neither exists |
| `Dma.TiledDisjoint` | src/mm/vmm.cpp:612-718 | Tiling implies that free ranges are pairwise disjoint and disjoint from allocated ones |
| `Dma.TakenKeeps` | src/mm/vmm.cpp:629-640 | Cutting an allocation off a slot keeps the tiling |
| `Dma.MergedUsed` | src/mm/vmm.cpp:696-716 | Every merge frees a slot, which is why the restarting loop ends |
| `Bitmap.Map.constructor` | src/mm/bitmap.cpp:4-12 | All bits clear, hint 0 |
| `Bitmap.Map.Get` | src/mm/bitmap.cpp:14-19 | Out of range reads as clear |
| `Bitmap.Map.Set` | src/mm/bitmap.cpp:21-30 | Exactly one bit changes, none out of range |
| `Bitmap.Map.SetRange` | src/mm/bitmap.cpp:32-63 | Bits, whole bytes and bits together change exactly the requested range, clipped to the map, with size_t overflow handled |
| `Bitmap.Map.FindFirstFree` | src/mm/bitmap.cpp:70-120 | The word-at-a-time search returns the first clear bit in circular order from the start or the hint, fails only if none is clear, and moves the hint behind it |
| `Bitmap.Map.ScanRange` | src/mm/bitmap.cpp:79-108 | The first clear bit of a range, by words and bits |
| `Bitmap.Map.FindFirstFreeSequence` | src/mm/bitmap.cpp:122-194 | The least start, at or after the start index, of a clear run of the given length; -1 only if there is none |
| `Bitmap.Map.FindLastFreeSequence` | src/mm/bitmap.cpp:196-244 | The greatest start of a clear run of the given length; -1 only if there is none |
| `Bitmap.Map.Word` | src/mm/bitmap.cpp:90-99 | The 64-bit load holds the bits of its range, and is zero or all ones accordingly |
| `Frames.AllocFrame` | src/mm/pmm.cpp:198-222 | Fails exactly when the free counter is 0; otherwise the frame was free, is not frame 0, is now held once, and the manager stays consistent |
| `Frames.IncRefKeepsValid` | src/mm/pmm.cpp:255-272 | Counting a reference keeps the manager consistent if and only if the frame is in use and not above usable memory |
| `Frames.DecRef` | src/mm/pmm.cpp:274-294 | Keeps the manager consistent; releases one reference, and the frame with the last one |
| `Frames.CountsDecide` | src/mm/pmm.cpp:255-294 | Equal reference counts over the same reserved frames mean equal bitmaps and equal free memory |
| `PhysicalMemory.Manager.ReserveFrame` | src/mm/pmm.cpp:23-35 | A frame is taken out for good with its accounting right; out of range nothing happens |
| `PhysicalMemory.Manager.Alloc` | src/mm/pmm.cpp:198-222 | The imperative allocation is AllocFrame on the state seen as a value, and never hands out frame 0 even if it were free |
| `PhysicalMemory.Manager.AllocRun` | src/mm/pmm.cpp:224-253 | The last contiguous free run that is long enough, each frame held once; or nothing when there is none |
| `PhysicalMemory.AllocsRunKeeps` | src/mm/pmm.cpp:224-253 | Taking a run keeps the manager consistent; its frames were free and are contiguous |
| `PhysicalMemory.Manager.Inc` | src/mm/pmm.cpp:255-272 | Counts one reference, panics exactly on a saturated 16-bit count, that of frame 0 included for addresses inside it |
| `PhysicalMemory.Manager.Dec` | src/mm/pmm.cpp:274-294 | Is DecRef on the state seen as a value if and only if the address is 0 or not inside frame 0, or frame 0 is not held; an address inside frame 0 otherwise takes one reference from frame 0, which keeps the manager consistent exactly if more than one was held |
| `PhysicalMemory.ZeroDiffers` | src/mm/pmm.cpp:274-294 | Taking a reference from frame 0 is never what releasing frame 0 by its own address does |
| `PhysicalMemory.Manager.MarkUsable` | src/mm/pmm.cpp:148-176 | Free bits are exactly the usable frames, and the byte counter equals 4096 times the clear bits if and only if no two usable entries share a frame |
| `PhysicalMemory.Manager.TakeTables` | src/mm/pmm.cpp:178-195 | The manager's tables and frame 0 are taken out; what remains is consistent and exactly the usable memory |
| `PhysicalMemory.Place` | src/mm/pmm.cpp:101-131 | The bitmap goes to the head of the first usable entry that holds it, the counts behind it if the entry has room for both, else to the head of the next entry that holds them; both find a place if and only if there is such room; they do not overlap |
| `PhysicalMemory.UsableMeans` | src/mm/pmm.cpp:36-56 | A frame of a usable entry is one that lies in it with all its bytes, for entries below the last frame |
| `PhysicalMemory.UsableWraps` | src/mm/pmm.cpp:36-56 | An entry in the last frame that is taken for all other frames |
| `PhysicalMemory.FirstFitGivesUp` | src/mm/pmm.cpp:101-135 | A memory map with room for both tables on which the search fails |
| `PhysicalMemory.Init` | src/mm/pmm.cpp:58-196 | Exactly when it gives up or panics; otherwise a consistent manager whose free memory is the usable memory without its own tables and frame 0, whose highest frame is a usable one, with tables large enough for every frame and not a frame larger |
| `PhysicalMemory.RangeBound` | src/mm/pmm.cpp:37-56 | No usable range passes the end of the bitmap or wraps around |
| `PhysicalMemory.CountEntry` | src/mm/pmm.cpp:148-176 | One more usable entry in the accounting: the count stays right exactly while entries are apart |
| `FrameRuns.StepKeeps` | src/mm/pmm.cpp:198-294 | Every call keeps the counts equal to what the manager keeps plus what the clients hold |
| `FrameRuns.RunTracks` | src/mm/pmm.cpp:198-294 | Over every run of allocations, releases and shared references the counts stay exact, the byte counter included, and no frame changes between reserved and managed |
| `FrameRuns.AllocatedFresh` | src/mm/pmm.cpp:198-253 | An allocated frame was free, was held by nobody, is not frame 0, and is now held once |
| `FrameRuns.Conservation` | src/mm/pmm.cpp:198-294 | Once the clients hold what they held before, exactly the same memory is free |
| `FrameRuns.InitTracks` | src/mm/pmm.cpp:58-196 | The state pmm_init leaves starts such a run |
| `FrameRuns.ShareRelease` | src/mm/pmm.cpp:255-294 | Counting a frame and giving it back is the identity if and only if the frame is not reserved; a reserved frame comes out free |
| `PageTracker.Tracker.Find` | src/mm/heap.cpp:122-133 | Probing past tombstones finds a tracked page, and fails exactly for pages that are not tracked |
| `PageTracker.Tracker.Add` | src/mm/heap.cpp:108-120 | The page is tracked afterwards; fails only when every slot holds a page |
| `PageTracker.Tracker.Remove` | src/mm/heap.cpp:143-158 | Leaving a tombstone removes one page and keeps all others findable |
| `HeapState.BucketFits` | src/mm/heap.cpp:184-196 | The bucket of a size is the smallest that fits |
| `HeapState.BucketBack` | src/mm/heap.cpp:184-196 | A freed block goes back to the bucket it came from |
| `HeapState.BlocksApart` | src/mm/heap.cpp:260-264 | Two blocks of tracked pages are equal or disjoint |
| `HeapState.FreeApart` | src/mm/heap.cpp:222-267 | No listed block overlaps a live one |
| `HeapState.TakenKeeps` | src/mm/heap.cpp:236-246 | Handing out the first block of a list keeps the heap invariant: lists, page counts, disjointness |
| `HeapState.RefilledKeeps` | src/mm/heap.cpp:248-266 | Cutting a new page into blocks keeps the heap invariant |
| `HeapState.PushedKeeps` | src/mm/heap.cpp:346-348 | Listing a freed block keeps the heap invariant |
| `HeapState.DroppedKeeps` | src/mm/heap.cpp:339-344 | Giving an empty page back keeps the heap invariant |
| `HeapState.LastBlock` | src/mm/heap.cpp:143-158 | The count of free blocks reaches the total if and only if the freed block was the last live one of its page |
| `HeapState.Rekeyed` | src/mm/heap.cpp:292-299 | Moving the pointer of an aligned block inside it keeps the heap invariant |
| `KernelHeap.DataApartFromHeaders` | src/mm/heap.cpp:73-98 | The data of a live pointer overlaps no header of any live block |
| `KernelHeap.Heap.Malloc` | src/mm/heap.cpp:222-275 | A new block, disjoint from all live and listed ones, large enough, 16-aligned, and less than twice or less than a page too large; fails exactly for 0, for sizes that overflow, for want of a page, or when the tracker is full and the page is given back. The pages it had and was given are exactly those it has and gave back |
| `KernelHeap.Heap.AllocLarge` | src/mm/heap.cpp:208-220 | Runs of pages for large sizes; fails exactly without pages or on overflow |
| `KernelHeap.Heap.Free` | src/mm/heap.cpp:307-351 | Exactly the freed block goes; its page is given back if and only if no other live block is in it; what was given back is no part of the heap any more, nothing twice, and together with what the heap has it is what the heap had; foreign pointers change nothing |
| `KernelHeap.Heap.FreeSmall` | src/mm/heap.cpp:335-350 | The page of the block goes back, or the block goes to the front of its list |
| `KernelHeap.Heap.FreeLarge` | src/mm/heap.cpp:325-333 | A run goes back page by page |
| `KernelHeap.Heap.AlignedAlloc` | src/mm/heap.cpp:277-300 | A new block whose pointer has the alignment and the size; fails exactly for alignments that are no power of two or where malloc fails; pages are conserved as in malloc |
| `KernelHeap.Heap.Realloc` | src/mm/heap.cpp:364-402 | Keeps the old contents and all other blocks' contents; the same pointer exactly when the block is large enough; on failure the old block stays; size 0 frees; every alignment of the old pointer up to 4096 is kept, and a block that began on a page moves to one page behind the start of its new pages. Whether it keeps, moves, frees or fails, the pages the heap had and was given are exactly those it has and gave back, and it has none of those it gave back |
| `KernelHeap.Heap.RemovePageBlocks` | src/mm/heap.cpp:160-182 | Exactly the blocks of the page leave the list, in order |
| `Alignment.ObservedPower` | src/mm/heap.cpp:59-71 | The alignment realloc observes is always one that aligned_alloc accepts |
| `Alignment.ObservedExact` | src/mm/heap.cpp:59-71 | The observed alignment is a multiple of a power of two if and only if that is at most 16, or at most 4096 and divides the pointer |
| `KernelHeap.LosesAlignment` | src/mm/heap.cpp:364-402 | A concrete heap in which a block aligned to 8192 moves to an address that is not |
| `HeapPages.RunFreed` | src/mm/heap.cpp:325-333 | A freed run gives back each of its pages once |
| `HeapPages.PageDropped` | src/mm/heap.cpp:335-345 | A dropped page leaves the heap and is given back once |
| `HeapPages.ConservesThen` | src/mm/heap.cpp:364-402 | Conservation of pages over one call after another |
| `HeapFrames.FreshUnowned` | src/mm/heap.cpp:208-275 | Frames that are free are no part of the heap |
| `HeapFrames.FrameHeap.constructor` | src/mm/heap.cpp:198-206 | An empty heap over a working memory manager |
| `HeapFrames.FrameHeap.Malloc` | src/mm/heap.cpp:208-275 | malloc with the frames taken from the memory manager: the heap holds each frame it has exactly once, and every frame has as many other references as before; fails only for 0, for sizes that overflow, with the tracker full, or without enough free frames in a row |
| `HeapFrames.FrameHeap.Free` | src/mm/heap.cpp:307-351 | free with the pages given back to the memory manager, under the same law: no frame is lost, released twice or taken from others |
| `HeapFrames.FrameHeap.AlignedAlloc` | src/mm/heap.cpp:277-300 | aligned_alloc under the same law, with the alignment and all reasons to fail |
| `HeapFrames.FrameHeap.Realloc` | src/mm/heap.cpp:364-402 | realloc under the same law, for a block that stays, moves or is freed and for a failure; the contents move along |
| `HeapFrames.FrameHeap.GiveBack` | src/mm/heap.cpp:325-345 | Releasing pages that are held once takes exactly those frames back |
| `HeapFrames.Settled` | src/mm/heap.cpp:208-402 | What the calls have in common: a heap that conserves pages, given fresh frames and releasing what it gave up, holds its frames once and leaves all other references alone |
| `PageCache.FlushKeeps` | src/fs/vfs.cpp:103-138 | Writing a page back keeps every file's contents as cached pages over storage |
| `PageCache.LoadKeeps` | src/fs/vfs.cpp:193-246 | Loading a page into a free slot keeps every file's contents |
| `PageCache.DropKeeps` | src/fs/vfs.cpp:140-191 | Dropping a page that is not dirty loses nothing |
| `PageCache.VictimFar` | src/fs/vfs.cpp:140-191 | A page of the write in progress is the victim only after 512 later pages |
| `PageCache.SafeExactly` | src/fs/vfs.cpp:791-861 | A write leaves the file as written, whatever the data, if and only if it touches at most 512 pages, or the last 512 pages it touches begin at or before the old end of the file |
| `PageCache.SafeWrites` | src/fs/vfs.cpp:791-861 | Safe writes leave the file as written |
| `PageCache.UnsafeLoses` | src/fs/vfs.cpp:791-861 | For every unsafe write there is data that it loses |
| `PageCache.Cache.constructor` | src/fs/vfs.cpp:32 | The empty cache: every file reads as its storage |
| `PageCache.Cache.Find` | src/fs/vfs.cpp:94-101 | The slot of a page, or none exactly when it is not cached |
| `PageCache.Cache.Flush` | src/fs/vfs.cpp:103-138 | Storage takes the page, clipped to the file size; files keep their contents |
| `PageCache.Cache.Select` | src/fs/vfs.cpp:141-158 | The victim is a free slot if there is one, else the least recently used one |
| `PageCache.Cache.Evict` | src/fs/vfs.cpp:140-191 | The loop ends with a free slot; dirty victims were written back, no other slot changed |
| `PageCache.Cache.GetPage` | src/fs/vfs.cpp:193-246 | The page is cached with the file's bytes; only its slot or the victim's changed |
| `PageCache.Cache.Read` | src/fs/vfs.cpp:736-789 | Exactly the bytes of the file in the range, clipped to its end |
| `PageCache.Cache.Write` | src/fs/vfs.cpp:791-867 | The exact new contents for every write: as written where the data is still cached when the size is raised, old storage elsewhere |
| `PageCache.Cache.Sync` | src/fs/vfs.cpp:563-580 | Afterwards storage holds every file, and the cache still has every page, clean |
| `PageCache.Cache.Purge` | src/fs/vfs.cpp:248-278 | The file is on storage and leaves the cache; other files are untouched |
| `BootMap.AllPartsKinds` | src/bootloader/uefi/main.cpp:1406-1451 | A pointwise update: each address stays in as many entries, and its type changes exactly inside the range |
| `BootMap.PartsKinds` | src/bootloader/uefi/main.cpp:1417-1446 | The same for the parts of one entry |
| `BootMap.PartsTile` | src/bootloader/uefi/main.cpp:1417-1446 | The parts of an entry cover it from start to end in at most three pieces, one for each zone it reaches into, with the type of that zone |
| `BootMap.EndMeans` | src/bootloader/uefi/main.cpp:311-322 | A range has the addresses from its base up to its length, and never the last one |
| `BootMap.Overlay` | src/bootloader/uefi/main.cpp:1406-1451 | The map becomes that update when it fits, and is untouched otherwise; it fails exactly when it does not fit |
| `BootPaging.AddUnique` | src/bootloader/uefi/main.cpp:105-127 | A set without repetition; fails exactly when a new value finds it full |
| `BootPaging.Estimator.AddLarge` | src/bootloader/uefi/main.cpp:142-158 | Counts the tables above every address of the range, in 64-bit arithmetic; a range that ends in the last GiB always fails, any other only on a full set; nothing is counted that no address of the range needs |
| `BootPaging.Estimator.AddSmall` | src/bootloader/uefi/main.cpp:160-180 | Counts all tables for every address of the range, in 64-bit arithmetic; a range that ends in the last GiB always fails, any other only on a full set; nothing is counted that no address of the range needs |
| `BootPaging.Estimator.AddDirect` | src/bootloader/uefi/main.cpp:1505-1530 | Counts the tables of every mapping map_direct_range will ask for; a range that ends in the last GiB of the direct map or behind it always fails, any other only on a full set |
| `BootPaging.Estimator.Estimate` | src/bootloader/uefi/main.cpp:1494-1546 | Counts the tables of every mapping that the build will ask for; fails only on a full set, on such a range, or for an image at the end of the address space; for ranges that start on pages it counts no table that no mapping needs |
| `BootPaging.WalkFinds` | src/bootloader/uefi/main.cpp:210-285 | The hardware walk over the built tables finds exactly the pages mapped |
| `BootPaging.WalkIsLast` | src/bootloader/uefi/main.cpp:210-285 | The hardware walk finds for every page what was asked for last |
| `BootPaging.SmallTree` | src/bootloader/uefi/main.cpp:264-284 | Writing a 4 KiB slot changes one page of the map |
| `BootPaging.BigTree` | src/bootloader/uefi/main.cpp:243-262 | Writing a 2 MiB slot changes the 512 pages of that slot |
| `BootPaging.RoomLeft` | src/bootloader/uefi/main.cpp:188-208 | While a counted table is missing, the pool of the counted size is not used up |
| `BootPaging.Tables.EnsureNext` | src/bootloader/uefi/main.cpp:229-241 | The table behind a slot, or a new one; none only when the pool is used up |
| `BootPaging.Tables.MapLarge` | src/bootloader/uefi/main.cpp:243-262 | One 2 MiB slot is mapped, all else stays; fails only with the pool used up and a table missing |
| `BootPaging.Tables.MapSmall` | src/bootloader/uefi/main.cpp:264-284 | One page is mapped, all else stays; fails only with the pool used up and a table missing |
| `BootPaging.Tables.MapDirect` | src/bootloader/uefi/main.cpp:1548-1578 | Serves exactly the mappings of the range; with a pool of the estimated size it never runs out |
| `BootPaging.Tables.Build` | src/bootloader/uefi/main.cpp:1580-1613 | With a pool of the estimated size the build never runs out of pages, and every page has what was asked for last |
| `BootPaging.DirectCovers` | src/bootloader/uefi/main.cpp:1548-1578 | Every page of a direct range, aligned or not, is asked for at its own address and in the higher half |
| `BootPlan.DirectTranslates` | src/bootloader/uefi/main.cpp:1580-1613 | After the build every page of every range translates p to p and from the higher half to p |
| `BootPlan.ImageTranslates` | src/bootloader/uefi/main.cpp:1608-1612 | After the build every page of the kernel image translates to its physical page |
| `BootPlan.BuiltTranslates` | src/bootloader/uefi/main.cpp:1580-1613 | The hardware walk over the built tables gives every page of the address space its own frame, its image frame or nothing, exactly as ranges and image ask |
| `BootPlan.PlanAgrees` | src/bootloader/uefi/main.cpp:1548-1613 | Ranges and an image above them never disagree about the frame of a page |
| `BootPlan.PlanUnmixed` | src/bootloader/uefi/main.cpp:1548-1613 | Pairwise disjoint ranges of whole pages and an image above them ask for no 2 MiB slot both ways |
| `BootPlan.LastIsWanted` | src/bootloader/uefi/main.cpp:1580-1613 | What the expanded list of requests asks for last is what ranges and image ask for |
| `BootPlan.RangeWhole` | src/bootloader/uefi/main.cpp:1548-1578 | A direct range maps every page its bytes lie in if and only if the last of them is counted from its base; ranges that start on a page do |
| `BootPlan.HalfPageMissed` | src/bootloader/uefi/main.cpp:1548-1578 | A concrete range from the middle of a page: in all tables built for it and any image, the walk finds its first page and not its second |
| `BootPlan.SizeAndBuild` | src/bootloader/uefi/main.cpp:1784-1822 | From the memory map to the tables: unless the sizing pass fails, a pool of the counted size is enough and the tables translate exactly what was asked for; for ranges that start on pages the build takes exactly as many tables as were counted |
| `BootPlan.BuiltExact` | src/bootloader/uefi/main.cpp:1494-1613 | Every counted table is built and no two counted numbers stand for one table, so the count is the number of tables |
| `BootPlan.CountedExact` | src/bootloader/uefi/main.cpp:142-180 | For canonical addresses the numbers counted without the 48-bit mask are as many as the tables behind them |
| `BootPlan.BuiltAligned` | src/bootloader/uefi/main.cpp:243-262 | Every large page that is built starts at a multiple of 2 MiB |
| `Handover.BootTable` | src/bootloader/uefi/main.cpp:188-241 | In the kernel's view of memory, indices lead to a table exactly if the boot loader made one, at its place in the pool |
| `Handover.BootTreeOk` | src/mm/vmm.cpp:113-190 | The boot loader's tables, reserved and with 2 MiB pages, are a tree: the kernel's walks, splits and mappings are proved on it |
| `Handover.BootShaped` | src/mm/vmm.cpp:380-394 | The upper half of these tables is a kernel half that address spaces can share |
| `Handover.BootWalk` | src/bootloader/uefi/main.cpp:210-285 | The kernel's walk finds for every page what the hardware walk over the boot loader's tables finds |
| `Handover.BootsKernel` | src/mm/pmm.cpp:58-196 | With the tables outside usable memory, what pmm_init leaves is a start of the runs of Isolation, with the tables reserved and counted by nobody |
| `Handover.StartsOk` | src/mm/vmm.cpp:200-204 | The machine over the booted memory manager and the boot loader's tables meets what its operations ask for |
| `Handover.StartUp` | src/bootloader/uefi/main.cpp:1784-1838 | From the memory maps to the kernel: sizing, building and pmm_init together leave a start of the runs, and every page translates as ranges and image ask for |
| `Handover.MapOverBoot` | src/mm/vmm.cpp:218-240 | Mapping a page over the boot loader's tables, 2 MiB pages and all, changes that page only; with three free frames it cannot fail |
| `Qoi.ReadLiteral` | src/usr/libgui/image.cpp:239-276 | Each literal chunk, DIFF, LUMA, RGB or RGBA, gives back the pixel it was chosen for, whatever the decoder's table holds |
| `Qoi.ReadRun` | src/usr/libgui/image.cpp:231-279 | A run chunk gives its pixel as often as it says |
| `Qoi.PixelFollows` | tools/appicon_rasterize.py:411-446 | Decoder and encoder stay in step over one pixel, even though their index tables may differ at the slot of the initial pixel |
| `Qoi.RoundTrip` | tools/appicon_rasterize.py:401-452 | For every pixel sequence the decoder recovers the pixels and stops exactly at the end of the chunks |
| `Qoi.FileRoundTrip` | tools/appicon_rasterize.py:401-452 | The same for whole files: header accepted, all pixels back, the end marker reached exactly |
| `Qoi.ShowsRoundTrip` | src/usr/libgui/image.cpp:135-146 | The surface value of each pixel is the packed original pixel and no other |
| `Qoi.PackBytes` | src/usr/libgui/image.cpp:135-146 | The surface word by its bytes: 0 exactly for transparent pixels; alpha, red, green and blue from the top byte down for pixels that are not multiplied; else the alpha and each channel as the nearest whole number to its share, never above the alpha |
| `Qoi.KnownChunks` | tools/appicon_rasterize.py:396-452 | The six kinds of chunks of one concrete image, byte by byte |
| `Qoi.LiteralShortest` | tools/appicon_rasterize.py:420-446 | The encoder takes one byte if some DIFF chunk would do and two if some LUMA chunk would, where no channel wraps around |
| `Qoi.WrapReads` | src/usr/libgui/image.cpp:239-265 | Differences count modulo 256: every pair of pixels whose wrapped differences fit a DIFF or LUMA chunk is read by it, used by the encoder or not |
| `Qoi.KnownReads` | src/usr/libgui/image.cpp:217-289 | Concrete chunks that no encoder writes, and what the decoder makes of them |
| `Qoi.Encode` | tools/appicon_rasterize.py:401-452 | The loop writes the specified file; fails exactly when a dimension needs more than 32 bits |
| `Qoi.Decode` | src/usr/libgui/image.cpp:197-289 | Accepts exactly well-formed files with enough chunks, and shows the pixels they say |
| `FatLayout.SectorsPerFat` | tools/build_efi_image.py:274-284 | The sizing loop ends in the first or the second round with a FAT large enough for all clusters and a data region for all of them |
| `FatLayout.ChooseLayout` | tools/build_efi_image.py:287-292 | A layout exists if and only if the image has at least 66599 sectors, and it is the closed form: one sector per cluster and a FAT for all sectors behind the reserved ones; larger clusters are never chosen |
| `FatLayout.LayoutLinks` | tools/build_efi_image.py:274-292 | All cluster numbers stay below the end-of-chain marks if and only if the image has at most 272696360 sectors |
| `FatVolume.LinkReads` | tools/build_efi_image.py:337-338 | A link reads back as a link if and only if it is below the end-of-chain marks |
| `FatVolume.SetFatAt` | tools/build_efi_image.py:337-338 | Writing one FAT entry changes no other |
| `FatVolume.ChainReads` | tools/build_efi_image.py:376-391 | Following a linked chain gives back the data written into it |
| `FatVolume.ClustersMeans` | tools/build_efi_image.py:364-365 | The smallest number of clusters, but at least one, that holds the bytes |
| `FatRecords.DecodeEncode` | tools/build_efi_image.py:119-127 | A directory entry decodes to what was encoded |
| `FatRecords.ParseBack` | tools/build_efi_image.py:420-436 | The entries of a directory, closed by a zero entry, parse back |
| `FatRecords.NameStart` | tools/build_efi_image.py:45-58 | No accepted name starts like the end of a directory or like the dot entries |
| `FatRecords.ShortName` | tools/build_efi_image.py:45-58 | A base of up to eight and an extension of up to three legal characters become upper case, each filled up with spaces |
| `FatBoot.BootBack` | tools/build_efi_image.py:295-324 | Every field of the boot sector reads back, and nothing else in it is set |
| `FatBoot.MountBack` | tools/build_efi_image.py:295-324 | A driver finds the geometry the volume was made with if and only if the clusters are those the sectors have room for |
| `FatBoot.LabelBack` | tools/build_efi_image.py:475-481 | The label that is found, and that it is the one given if and only if that has at most eleven characters and is trimmed |
| `FatBoot.InfoBack` | tools/build_efi_image.py:327-334 | The signatures and both numbers of an FSInfo sector read back |
| `FatBoot.Patched` | tools/build_efi_image.py:460-461 | Patching the hidden sectors changes that number and nothing else, for a driver too |
| `FatBoot.StaleBackup` | tools/build_efi_image.py:460-461 | The backup agrees with the patched boot sector if and only if the number did not change |
| `FatBuilder.SortOrdered` | tools/build_efi_image.py:426-429 | Sorting orders entries by name |
| `FatBuilder.SortMultiset` | tools/build_efi_image.py:426-429 | Sorting loses and invents no entry |
| `FatBuilder.NameLeMeans` | tools/build_efi_image.py:426-429 | Names are ordered as strings: a prefix first, else by the first difference |
| `FatBuilder.TreeReads` | tools/build_efi_image.py:376-436 | A volume with good chains reads back as the whole tree: entries, bytes and sub-directories |
| `FatBuilder.Builder.constructor` | tools/build_efi_image.py:342-358 | An empty volume with its two reserved FAT entries and the root cluster |
| `FatBuilder.Builder.AllocateChain` | tools/build_efi_image.py:364-374 | A new chain disjoint from all earlier ones; fails exactly when the clusters run out |
| `FatBuilder.Builder.WriteChain` | tools/build_efi_image.py:376-391 | The chain holds the data, zero-padded, and no other cluster changes |
| `FatBuilder.Builder.AllocateDirectory` | tools/build_efi_image.py:407-411 | One cluster per directory, in order; fails only when they do not fit |
| `FatBuilder.Builder.Populate` | tools/build_efi_image.py:413-418 | Every file gets its own chain with its bytes; fails only when they do not fit |
| `FatBuilder.Builder.WriteDirectory` | tools/build_efi_image.py:420-436 | Every directory holds its entries; succeeds if and only if all names are legal and each directory fits its cluster |
| `FatBuilder.Builder.Finalise` | tools/build_efi_image.py:438-457 | Succeeds if and only if names are legal, directories fit their cluster, all fits the volume, the label is ASCII and the hidden sectors fit 32 bits; then every field of the boot sector reads back from the image and from its backup in sector 6, FSInfo in sectors 1 and 7 has its signatures, counts the free clusters of the FAT and names the first of them, the two reserved FAT entries are set, walking the image returns the tree with every file's bytes, every directory and file is a linked run of the FAT that holds it, the runs lie one after the other in bounds with only free clusters behind them, and both FATs agree |
| `FatBuilder.BuildVolume` | tools/build_efi_image.py:341-457 | The whole builder for images of up to 272696360 sectors: succeeds if and only if there are at least 66599, the tree fits the layout, the label is ASCII and the hidden sectors fit 32 bits; then a driver reads the geometry from the image, and with it the finished volume |
| `FatPaths.FoundExactly` | tools/build_efi_image.py:420-436 | Every entry of a list is the one its name leads to if and only if no two have one name |
| `FatPaths.DirectoryExact` | tools/build_efi_image.py:45-58 | So it is in a written directory if and only if no two names in the tree become one 8.3 name; the dot entries are never in the way |
| `FatPaths.PathReads` | tools/build_efi_image.py:407-436 | Where no directory has such names, following a path by names returns the file at that path with its bytes |
| `FatPaths.BuildAndRead` | tools/build_efi_image.py:341-457 | Building a volume and reading it by path, with the geometry taken from the boot sector, returns every file of a tree without such names |
| `FatPaths.CaseClash` | tools/build_efi_image.py:45-58 | Two different names that become one 8.3 name |
| `FatPaths.DotsLead` | tools/build_efi_image.py:420-425 | In a written directory other than the root, the entry . leads back to it and .. to its parent |
| `FatPaths.UpLeads` | tools/build_efi_image.py:420-436 | From every sub-directory the way up leads to the directory it is in; from those of the root to cluster 2 |
| `FatChains.ChainsDisjoint` | tools/build_efi_image.py:364-418 | In a finished image two different directories or files share no cluster of their chains |
| `FatChains.NoLostClusters` | tools/build_efi_image.py:364-418 | In a finished image a cluster is marked as taken if and only if it is in the chain of some directory or file |
| `FatChains.ChainIsRun` | tools/build_efi_image.py:364-374 | Following the FAT from a directory or file visits exactly its clusters, in order |
| `FatChains.ReadsVisited` | tools/build_efi_image.py:376-391 | Reading a chain is reading the clusters it visits |
| `FatChains.ChainExact` | tools/build_efi_image.py:376-391 | A chain reads as its data and zeros up to the end of its last cluster, nothing else |
| `FatChains.RunExact` | tools/build_efi_image.py:376-436 | What a reader gets of every directory and file of a finished image: its bytes, and zeros up to the end of its last cluster |
| `FatChains.RunsPacked` | tools/build_efi_image.py:407-418 | The clusters of all directories and files follow one another without a gap |
| `Damage.Clip` | include/wm/interaction_policy.h:92-116 | Exactly the on-screen part of a rectangle |
| `Damage.UnionIs` | include/wm/interaction_policy.h:82-90 | The union of on-screen rectangles is their bounding box; the 32-bit clamps never bite |
| `Damage.TouchMeans` | include/wm/interaction_policy.h:74-80 | Rectangles touch if and only if they are not empty and have a point in common, edges included |
| `Damage.WorthMeans` | include/wm/interaction_policy.h:157-167 | On screens of less than 2^61 pixels the rule is: the bounding box has less than 1.5 times the pixels of the two |
| `Damage.MergedKeeps` | include/wm/interaction_policy.h:140-146 | Merging two rectangles loses no pixel and stays in the bounding box |
| `Damage.MergeTouching` | include/wm/interaction_policy.h:135-150 | The first phase ends with pairwise non-touching rectangles; they come from the input by merging pairs that touch, and cover the same damage |
| `Damage.AreaRound` | include/wm/interaction_policy.h:157-178 | A round of the 1.5 times rule, in 64-bit arithmetic, loses no pixel and merges only pairs that are worth it; it merges something, or no pair is worth merging and nothing changed |
| `Damage.MergeSaving` | include/wm/interaction_policy.h:155-178 | The second phase ends with no pair worth merging; what is left comes from the input by merging pairs that were |
| `Damage.Cap` | include/wm/interaction_policy.h:180-187 | More than 24 or 16 rectangles become their bounding box, any fewer stay as they are |
| `Damage.Normalize` | include/wm/interaction_policy.h:118-188 | What is on the screen of the input is merged pair by pair where rectangles touch, until none do, then pair by pair where it is worth it, until nothing is; exactly if more than 24 or 16 are left they become their bounding box. So no pixel is lost, nothing leaves the screen or the bounding box of the input, the count never grows and both loops end |
| `Damage.NormalizeStays` | include/wm/interaction_policy.h:118-188 | Rectangles of which, clipped, none touch and none are worth merging, and no more than the limit, come out as they are, in some order |
| `Damage.Enqueue` | include/wm/interaction_policy.h:190-222 | Exactly: a rectangle off the screen changes nothing, the whole screen stands alone, the first that touches takes it in, else it is added, and only a full queue becomes one box; the queue and the rectangle stay covered, within max_rects and their bounding box |
| `Framebuffer.Screen.constructor` | src/drivers/video/framebuffer.cpp:298-319 | A new back buffer is marked for a full redraw |
| `Framebuffer.ContainsMeans` | src/drivers/video/framebuffer.cpp:101-107 | A rectangle contains another if and only if that is not empty and has no pixel outside |
| `Framebuffer.Screen.MarkDirty` | src/drivers/video/framebuffer.cpp:142-177 | Old and new damage stays recorded. A full redraw is set only when 128 rectangles are recorded and the new one meets none of them; one that meets none is added; the first it meets has it already, or it and what it touches are merged pair by pair |
| `Framebuffer.Screen.PutPixel` | src/drivers/video/framebuffer.cpp:416-426 | One pixel changes, and every visible pixel still agrees with the screen, is recorded dirty, or a full redraw is set; exactly the pixel is recorded, and only if its colour changes |
| `Framebuffer.Screen.FillRow` | src/drivers/video/framebuffer.cpp:447-460 | Storing pixels in pairs fills exactly the row part |
| `Framebuffer.Screen.FillRect` | src/drivers/video/framebuffer.cpp:438-464 | Exactly the visible part of the rectangle is filled, and exactly that is recorded |
| `Framebuffer.Screen.Clear` | src/drivers/video/framebuffer.cpp:428-436 | Every visible pixel has the colour |
| `Framebuffer.Screen.ScrollUpRect` | src/drivers/video/framebuffer.cpp:956-977 | Exactly the rectangle scrolls, the uncovered part is filled, and exactly these two are recorded |
| `Framebuffer.Screen.ScrollUp` | src/drivers/video/framebuffer.cpp:979-1003 | All visible rows scroll, the uncovered rows are filled |
| `Framebuffer.Screen.Swap` | src/drivers/video/framebuffer.cpp:321-372 | After a swap the two buffers agree on every visible pixel |
| `Pipes.StepKeepsInv` | src/fs/pipe.cpp:86-193 | Every locked step keeps the pipe invariant |
| `Pipes.RunKeepsInv` | src/fs/pipe.cpp:86-193 | For every interleaving of steps |
| `Pipes.Delivered` | src/fs/pipe.cpp:86-161 | Bytes taken are the first bytes written, the rest is in the pipe |
| `Pipes.Fifo` | src/fs/pipe.cpp:86-161 | What the reads returned, followed by what is buffered, is what the writes accepted |
| `Pipes.NoMutualWait` | src/fs/pipe.cpp:95-160 | Readers wait only on an empty pipe with its write end open, writers only on a full pipe with its read end open, so the two sides never wait on each other |
| `Pipes.Closings` | src/fs/pipe.cpp:163-193 | In every run an end is closed if and only if somebody closed it |
| `Pipes.EndsTold` | src/fs/pipe.cpp:86-161 | End of file is reported only after the write end was closed and with every byte written read, a broken pipe only after the read end was closed; nobody waits behind a closed end |
| `Pipes.Greedy` | src/fs/pipe.cpp:86-161 | A read returns all that was asked for or all there is, a write accepts all that is offered or fills the pipe |
| `Pipes.Pipe.constructor` | src/fs/pipe.cpp:66-84 | A new pipe is empty with both ends open |
| `Pipes.Pipe.ReadTurn` | src/fs/pipe.cpp:86-122 | One turn of the ring buffer is the matching step: data, end of file, or wait |
| `Pipes.Pipe.WriteTurn` | src/fs/pipe.cpp:124-161 | One turn of the ring buffer is the matching step: bytes accepted, broken pipe, or wait |
| `Pipes.Pipe.ShutRead` | src/fs/pipe.cpp:163-177 | Closing the read end is the matching step and wakes the writers |
| `Pipes.Pipe.ShutWrite` | src/fs/pipe.cpp:179-193 | Closing the write end is the matching step and wakes the readers |

## Left out

Machine and concurrency:

- TLB shootdowns, CR3 writes, fences, spinlocks and interrupt state: a locked region is one atomic step, and the compare-and-swap of get_next_level always wins.
- Cache-attribute (PAT) bits when a huge page is split; the attribute bits of an entry are kept as one number.
- Frame contents and page tables are separate maps from frames; the direct map is modelled as a translation, not as a way to store into either.
- Frame numbers above 40 bits, and canonical address checks.

Virtual memory:

- Kernel.Isolation: areas are whole pages and those of kind Shared carry PTE_SHARED; shared memory and memory files, the loading of programs and system calls of several threads at once are not steps of the runs, and a new process starts with an empty address space.
- Kernel.Machine.Munmap: once a page of the kernel half was cleared nothing more is said about the pages behind it; which those are is exact.
- Kernel.Machine.Mmap: calls with a memory file; that the pages are entered in the tables before the area is in the list cannot be observed in the model.
- Kernel.Machine.ForkProcess: covers the address space and the area list; the child's descriptors, its kernel stack and its place in the scheduler are not part of this model.
- Kernel.Machine.HandlePageFault: the current process is a parameter; the result for a process without page table or areas is not modelled.
- AddressSpace.Tables.CloneAddressSpace: the memory of tables it gave back on failure is not restored, and write permissions cleared so far stay cleared, as in the code.
- vmm_protect_kernel, vmm_map_mmio, vmm_alloc_dma and the framebuffer remapping: callers of what is modelled. The kernel half is the same from the first process on; what they add to it later is no step of the runs.
- vma_remove, vma_free_all and vma_dump_list: one loop each over the list.
- Dma.Window.Free: only ranges that were allocated as such are freed, as its callers do.
- Dma.Window.Alloc: a request of size 0 is modelled as the code treats it, but no live range comes from it.

Physical memory and heap:

- PhysicalMemory.Init: usable entries of the memory map share no frame; MarkUsable says what happens otherwise. The two panics that 64-bit sizes cannot reach, and the total and usable statistics, are left out.
- KernelHeap.Heap.Malloc: the pages are inputs, any that the heap does not own, which HeapFrames discharges; headers and list links are kept beside the bytes; addresses are unbounded numbers.
- KernelHeap.Heap.Free: freeing twice or freeing a forged header is outside the precondition; pointers without a valid header are covered.
- calloc, operator new and delete, and heap statistics: wrappers.

Page cache:

- PageCache.Cache.Write: writes start inside the file or at its end; truncation, holes, several vnodes for one file and offsets near 2^64 are left out.
- PageCache.Cache.Flush: its buffer can be allocated and the backend writes everything. If that allocation failed, the dirty flag would stay and the eviction loop would not end.
- PageCache.Cache.GetPage: the second lookup after loading, which only matters between processors; the access tick is unbounded.
- Paths, mounts, permissions and descriptors.

Boot loader:

- BootPaging.Tables.Build: no 2 MiB slot is asked for both as a large and as small pages, which PlanUnmixed shows for disjoint ranges of whole pages; the plan is the same list of ranges that was estimated.
- BootPlan.SizeAndBuild: descriptors whose byte count overflows, and a memory map that changes between sizing and building.
- UEFI calls, ELF loading, EDID and display modes.

Codec and image builder:

- Qoi.Encode: pixels are given as a sequence of RGBA values; bit fields are written as arithmetic.
- The icon, wallpaper and cursor containers around QOI images.
- FatBuilder.Builder.Finalise: the tree is given as a value, so the dictionaries behind ensure_dir and add_file are not modelled; names are ASCII.
- FatBuilder.Builder.constructor: volumes whose cluster numbers reach the end-of-chain marks, that is images of more than 272696360 sectors.
- The FAT16 builder, partition tables and the search for an existing partition in a disk image.

Display and pipes:

- Framebuffer.Screen.Swap: buffers are two-dimensional arrays, so the 32-bit row index of buffers over 2^32 pixels is not modelled; other drawing targets, rounded rectangles (whose blended edges are not marked), text and cursors are left out.
- Damage.Enqueue: the queue holds on-screen rectangles, as it always does between changes of the screen size.
- Pipes.Pipe.ReadTurn: one pipe's lifetime; reuse of its slot, polling and debug counters are left out.

Everything else in the repository: drivers, ACPI, networking, other system calls, shell, GUI widgets, fonts, and build scripts.
