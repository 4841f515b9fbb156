# YYSloth: verified model of memory management, processes and the ramdisk

YYSloth is a small x86-64 kernel. This project models the parts of it whose correctness is
hardest to see, and proves what they promise.

**Copy-on-write address spaces** (`PageTables`, `AddressSpaces`, `CowFault`, `CowFork`,
`CowExit`, `CowMap`, `CowInstall`, `CowUnmap`, `CowShared`, `KernelFrames`, `CowRuns`).
Physical memory is a sequence of frames, each a page of bytes or a table of 512 entries; an
address space is a top-level table whose user half may share tables with others. `Inv`
states what every operation keeps: each reference count is the number of (root, index path)
pairs that reach the frame, a copy-on-write entry is read-only and everything below it is
copy-on-write, the frame behind any other entry has exactly one path, one address space
reaches a frame in one way only, and the kernel half, made of frames of the kernel's own, is
shared by all and denies user access. `AllViews` is what processes can observe: the
contents of every page, and whether users may reach it, write to it and execute it.
`CopyOnWriteRefinesEagerCopy` says that over every run the views are those of a machine
that copies all memory at each fork. Frames the kernel takes and gives back, and pages
it maps in its half, are events of a run like any other.

**The code itself** (`Traversal`, `MarkPass`, `FaultPass`, `CowKernel`, `VmMap`, `VmUnmap`,
`KernelMap`, `Security`, `ForkCall`, `Exec`). The class `CoW` works in place on physical
memory and the frame allocator, with the loops, recursion and exits of the source, and each
method is proved to perform one of the steps above, or to leave everything in use unchanged
when memory runs out. `UserWrite` puts processor and fault handler together, `CheckedWrite`
the permission check before them, `SysFork` the process table and the address spaces, and
`ExecuteBinary` those and the user allocator. The four copying blocks of the fault handler
have the same shape and are written once each as `CopyLeaf`, `CopyLevel` and `Install`.
Whether a temporary mapping succeeds is a parameter: the frames and addresses that mapping
itself may take for kernel tables are not part of the state, so "the allocated set as
before" says nothing of them.

**Bits and addresses** (`Basics`, `Words`, `Paging`, `PhysAllocator`). 64-bit arithmetic on
bit vectors: the recursive mapping of section 4.5 of the Intel SDM, Volume 3A, the layout of
an entry, and the bitmap frame allocator.

**Virtual address allocators** (`FreeList`, `KernelAreas`, `UserAreas`, `Elf`). The kernel's
doubly linked list of free areas is the canonical form of the set of free addresses; the
user allocator splits areas without ever emptying one; the ELF loader accepts exactly the
ascending page-disjoint segments of the "Program Header" section of chapter 5 of the System
V gABI, and reserves exactly their union.

**Processes** (`RunList`, `Processes`). The circular run list with its bounded waiting, the
PID bitmap, and the life of a process from fork over exit to the status query that reaps it.

**The ramdisk** (`Ramdisk`). A tar image, byte by byte, parsed into a numbered table that
represents exactly the archived tree.

**The slab heap** (`Slab`). Pools of slots chained through their headers, in buckets by
their number of free slots.

Some properties one might expect are not true of the code as it stands. It is kept as it is,
with an input and the exact condition under which the property holds:

- No user access is granted in the kernel half: exactly as long as no page was mapped for
  users at or above 2^47 (`UserTopEntry`, `UserTopStepIff`). The user allocator hands out
  addresses up to 2^48, so the loader maps there what a header like that of
  `UpperSegmentExample` asks for, and `YY_VirtualAlloc` what is left when the lower half is
  used up. The runs here contain no such mapping: every statement about all states of a run
  is made under that condition.
- A range that passes the user check is one the user can access: whatever is mapped, exactly
  if it is empty, ends at or below 2^47, or lies in the canonical upper half and its rounded
  end does not wrap (`AcceptanceMeansIff`). Otherwise the loop bound wraps around
  (`WrappingRangeExample`), or the masked indices of an address that is not canonical are
  those of another page (`NonCanonicalExample`, `UpperRangeExample`). As long as no page of
  the upper half is open to users, a range that touches a page with bit 47 set will do too,
  since it is refused, and no other range of the upper half matters
  (`UserAcceptanceMeansIff`).
- A mapping keeps the sharing discipline: exactly if the table it goes to is private, that
  is, not behind a copy-on-write entry (`NewEntryKeepsInvIff`). In a shared one, everybody
  who shares it finds the page (`SharerSees`), after a fork the parent that of its child
  (`MapAfterFork`). A write of the kernel's for a system call changes the view of the caller
  alone: exactly if the frame has one reference, or holds the byte already
  (`KernelWriteIff`). Both are so while the processor's write protection for kernel mode is
  off; the boot code leaves it as it finds it. With it on, such a write faults, and
  `PageFault` describes what follows in the user half.
- Unmapping gives the frame back: exactly if the page is managed (`UnmapKeepsInvIff`). Pages
  from `YY_VirtualAlloc` and the argument pages are not.
- `YY_VirtualFree` unmaps the range it is asked for: exactly if that starts at 0 or is empty
  (`FreedRangeIff`).
- The code check looks at the no-execute bit: it refuses every page, since its mask is by
  operator precedence the present bit (`VirtualPageConditionCheck`).
- A failed fork changes nobody's memory: exactly if it failed for want of a PID or a stack,
  or the caller maps nothing. Its other arms clean up after the new process in the address
  space of the caller, and empty that (`FailedForkKeepsViewsIff`).
- The area made for an ELF segment covers it: exactly if the segment ends at least a page
  below 2^64 (`CoversIffNoWrap`, `UncoveredExample`, `WrappingIsNotAscending`).
- Reserving a range leaves a list of disjoint areas: exactly if it fails or its end does not
  wrap around (`Reserve`, `FreeTwiceExample`).
- An area of exactly the requested size is used: never (`Alloc`, `ExactFitExample`).
- Start-up marks the frames of the boot information and the ramdisk as taken: exactly those
  below the first unused frame or in an unavailable range (the constructor of
  `PhysAllocator`, `RamdiskNotKept`).
- Start-up leaves a sound frame allocator: exactly if the bits past the last frame were set
  before; and a sound process table: exactly if nothing in its memory looks like a dead
  child under a PID nobody holds (the constructors of `PhysAllocator` and `ProcessManager`).
  Of the PID bitmap it clears the first eighth.

A status query frees a PID that is held, with one guard: the caller is not the idle process.
That one makes no system calls, so the code relies on it rightly (`GetProcStatus`,
`IdleReapsAgain`). New pages are not zeroed: a mapping shows what the frame held before,
which is the parameter `residue` of `MapNewPageAt`. Exit gives back the user half of an
address space; its top-level table stays allocated, as does the clone of a fork that fails
after making it.

Assumptions about start-up: one address space with an empty user half, whose top-level table
counts one reference and whose kernel half is there throughout, denies user access and
leads, by one path each, to tables among the frames taken; the bits past the last frame set;
nothing left in the process table that looks like a dead child; the image on a 512-byte
boundary.

## Model

| member | source | states |
|---|---|---|
| CowRuns.CopyOnWriteRefinesEagerCopy | YYSloth/src/memory/cow.cpp:77-316 | after every run of new address spaces, forks, user writes (with their faults), mappings, remappings, unmappings, exits, operations abandoned for lack of memory and whatever the kernel does with frames of its own, every process sees exactly what it would see had each fork copied all memory, and the invariant (counts equal path counts, sharing discipline) still holds; user mappings are below 2^47, in tables that are not shared |
| CowRuns.StepRefines | YYSloth/src/memory/cow.cpp:77-316 | one operation of any kind keeps the invariant and changes the views exactly as the copying machine does |
| CowRuns.WriteRefines | YYSloth/src/memory/cow.cpp:99-214 | a user write, with at most one repair before it, changes one page of the writer's view, or removes the writer if the page is not writable for users |
| CowRuns.BootSatisfiesInv | YYSloth/include/memory/mminit.hpp:21-27 | the state start-up hands over satisfies the invariant and maps no user page |
| CowRuns.UnchangedKeepsInv | YYSloth/src/memory/cow.cpp:215-227 | an abandoned operation leaves the invariant in place, whatever it left in free frames |
| CowRuns.UnchangedKeepsViews | YYSloth/src/memory/cow.cpp:215-227 | an abandoned operation changes no process's view |
| CowRuns.RemapRefines | YYSloth/src/memory/vmmap.cpp:79-85 | mapping a page that is there changes the rights to that page, which keeps its contents, and nobody else's view |
| CowRuns.UpperHalfDenied | YYSloth/include/memory/mminit.hpp:21-27 | in every state of such a run the top-level entries of the kernel half deny user access, so no user access there passes a check; a user mapping at or above 2^47, which is no event of a run, ends that (`UserTopEntry`) |
| CowRuns.UnmapRefines | YYSloth/src/memory/vmmap.cpp:90-101 | unmapping a managed page in a table of one's own takes that page from one view and changes no other |
| AddressSpaces.KernelWalkKept | YYSloth/include/memory/mminit.hpp:21-27 | operations on user halves leave every walk through the kernel half what it was, in old and new address spaces |
| AddressSpaces.KernelIsShared | YYSloth/include/memory/mminit.hpp:21-27 | a page of the kernel half is mapped alike in all address spaces |
| AddressSpaces.CountsAreBounded | YYSloth/src/memory/physalloc.cpp:159-163 | no frame has more paths than there are frames, so its 64-bit count never overflows |
| CowFault.FaultEntries | YYSloth/src/memory/cow.cpp:131-213 | after a handler run every path of every address space selects the entry it selected before, except the replaced prefixes of the faulting path, which lead to the copies with the write bit restored |
| CowFault.FaultKeepsInv | YYSloth/src/memory/cow.cpp:99-213 | all four exits of the handler keep the invariant: copies get count 1, replaced frames lose one, a frame is free exactly when its last path went |
| CowFault.FaultKeepsViews | YYSloth/src/memory/cow.cpp:99-213 | a handler run changes nobody's view, contents or permissions to read, write and execute |
| CowFault.FaultClearsPath | YYSloth/src/memory/cow.cpp:125-129 | every entry on the repaired path is no longer copy-on-write, keeps its user and no-execute bits, and is writable exactly if it was effectively writable |
| CowFork.ForkEntries | YYSloth/src/memory/cow.cpp:234-281 | after a fork parent and child select the same entries, those of the parent marked, and everyone else's entries are as before |
| CowFork.ForkKeepsInv | YYSloth/src/memory/cow.cpp:234-281 | one reference per entry met makes every count equal the number of paths again, through tables that were already shared too |
| CowFork.ForkDuplicatesViews | YYSloth/src/memory/cow.cpp:264-281 | the child's view is the parent's, with the rights to read, write and execute, and no view changes |
| CowExit.ExitKeepsInv | YYSloth/src/memory/cow.cpp:295-316 | dropping one reference per path of the leaving process leaves counts equal to the remaining paths |
| CowExit.ExitRemovesViews | YYSloth/src/memory/cow.cpp:295-316 | exit removes the process's own view and no other |
| CowMap.NewRootKeepsInv | YYSloth/src/memory/cow.cpp:282-294 | a new top-level table with an empty user half keeps the invariant |
| CowMap.NewRootKeepsViews | YYSloth/src/memory/cow.cpp:282-294 | a new address space maps nothing and changes no view |
| CowMap.StoreChangesOneView | YYSloth/src/memory/cow.cpp:238-243 | since sharing makes entries read-only, a store the processor allows hits a frame with one path, so it changes one byte of the writer's view and nothing in any other |
| CowMap.LeafDecides | YYSloth/src/memory/msecurity.cpp:32-60 | whether users may read or write a page and whether it may be executed is decided by its last-level entry alone |
| CowInstall.InstallKeepsInv | YYSloth/src/memory/vmbase.cpp:28-43 | a fresh table or page under a table of one's own keeps the invariant |
| CowInstall.InstallViews | YYSloth/src/memory/vmmap.cpp:46-52 | a fresh table changes no view; a fresh page adds that page, with the rights of its entry, to one view and changes no other |
| CowInstall.ReflagKeepsInv | YYSloth/src/memory/vmbase.cpp:44-49 | other flags for an entry of one's own table, as granting users access to a table does, keep the invariant |
| CowInstall.ReflagViews | YYSloth/src/memory/vmmap.cpp:79-85 | flags of a table entry give nobody access to an existing page; flags of a leaf change the rights to that page alone |
| CowUnmap.UnmapKeepsInvIff | YYSloth/src/memory/vmmap.cpp:98-101 | unmapping keeps every count equal to the number of paths if and only if the page is managed; the frame of another page keeps a reference that nothing accounts for |
| CowUnmap.UnmapViews | YYSloth/src/memory/vmmap.cpp:98-101 | managed or not, the page is gone from one view and no other view changes |
| CowShared.NewEntryKeepsInvIff | YYSloth/src/memory/vmmap.cpp:46-52 | a new entry keeps the invariant if and only if its table is private to the address space |
| CowShared.SharerSees | YYSloth/src/memory/vmmap.cpp:46-52 | a page mapped in a shared table appears in the view of everyone who shares it |
| CowShared.MapAfterFork | YYSloth/src/proc/userapi.cpp:133-156 | after a fork that is what a new page of the child in a table it was given does to its parent |
| CowShared.KernelWriteIff | YYSloth/src/proc/userapi.cpp:33-39 | a write of the kernel's to a page of the caller changes the caller's view alone if and only if the frame has one reference or holds the byte already |
| KernelFrames.KernelKeepsInv | YYSloth/src/memory/physalloc.cpp:113-131 | whatever the kernel does with frames of its own, the invariant stays, as long as its half of the address spaces is sound |
| KernelFrames.KernelKeepsViews | YYSloth/src/memory/physalloc.cpp:113-131 | and no process sees it |
| KernelFrames.TakeIsKernelStep | YYSloth/src/memory/physalloc.cpp:113-131 | a free frame may become the kernel's with any contents and any count |
| KernelFrames.GiveIsKernelStepIff | YYSloth/src/memory/physalloc.cpp:142-150 | giving a frame of the kernel's back is sound if and only if it is not frame 0 and no table of the kernel half |
| KernelFrames.KernelPutEntries | YYSloth/src/memory/vmmap.cpp:45-84 | a change of an entry of a kernel table changes the translation of that path in every address space, and of no other |
| KernelFrames.KernelPutIsStep | YYSloth/src/memory/vmmap.cpp:45-84 | new tables under the kernel half, new pages there, new flags and cleared entries keep it sound |
| Traversal.MetIsBelow | YYSloth/src/memory/cow.cpp:248-263 | the frames a recursive pass meets are exactly those with a path below the table |
| Traversal.Disjoint | YYSloth/src/memory/cow.cpp:248-263 | the subtrees under different entries of one table share no frame, so a pass meets each frame once |
| Traversal.ShortWalk | YYSloth/src/memory/msecurity.cpp:19-30 | for every address, canonical or not, whatever the walk reaches in fewer than four steps is a table: below user entries, kernel entries and the self-mapping entry alike |
| MarkPass.PassIsFork | YYSloth/src/memory/cow.cpp:264-281 | marking everything met once with one reference each, then copying the top table, is the fork step |
| MarkPass.PassIsExit | YYSloth/src/memory/cow.cpp:295-316 | dropping one reference from everything met and clearing the user half is the exit step |
| FaultPass.PathIsRepair | YYSloth/src/memory/cow.cpp:114-200 | the copy-on-write entries of a faulting path are a suffix of it, so stopping at the first private table replaces exactly the shared part |
| FaultPass.Installed | YYSloth/src/memory/cow.cpp:124-138 | the chain of copies hung under the lowest private table is the repaired memory |
| FaultPass.RecountedAfter | YYSloth/src/memory/cow.cpp:138-213 | the frames freed at each exit are exactly the replaced ones, one reference each |
| FaultPass.CleanedUp | YYSloth/src/memory/cow.cpp:215-227 | freeing what was allocated leaves every frame in use, every count and the allocated set as before the fault |
| CowKernel.CoW.MarkAsCoWRec | YYSloth/src/memory/cow.cpp:248-263 | marks every present entry from the table down and adds one reference to exactly the frames met |
| CowKernel.CoW.MarkAsCoW | YYSloth/src/memory/cow.cpp:234-247 | the same over the user half of a top-level table |
| CowKernel.CoW.ClonePageTable | YYSloth/src/memory/cow.cpp:264-281 | the in-place fork performs the fork step, or returns 0 with nothing in use changed: exactly if no frame is free or the temporary mapping fails |
| CowKernel.CoW.CopyWithEmptyUserHalf | YYSloth/src/memory/cow.cpp:286-291 | the new table has the kernel half of the current one, no user entry, and maps itself last |
| CowKernel.CoW.NewPageTable | YYSloth/src/memory/cow.cpp:282-294 | performs the new-address-space step, given a free frame |
| CowKernel.CoW.DisposePageTableRec | YYSloth/src/memory/cow.cpp:306-316 | drops one reference from exactly the frames met, never from a count of zero, and reads a table only while it is allocated |
| CowKernel.CoW.DeallocateUserMemory | YYSloth/src/memory/cow.cpp:295-305 | performs the exit step in place |
| CowKernel.CoW.CheckAndMoveToNext | YYSloth/src/memory/cow.cpp:40-76 | lets an access pass a level exactly if the entry is present, for users if the access is, not no-execute if it is a fetch, and copy-on-write or writable if it is a write; then gives the next table |
| CowKernel.CoW.CheckPath | YYSloth/src/memory/cow.cpp:89-97 | passes exactly if all four levels pass, and gives the frames of the path |
| CowKernel.CoW.CopyLeaf | YYSloth/src/memory/cow.cpp:99-113 | a copy of the faulting page in a fresh frame, exactly if one is free and its temporary mapping succeeds; otherwise only scratch allocations |
| CowKernel.CoW.CopyLevel | YYSloth/src/memory/cow.cpp:114-130 | a copy of one table with the faulting entry repointed at the copy below, exactly if another frame is free and its temporary mapping succeeds; otherwise only scratch allocations |
| CowKernel.CoW.CleanUp | YYSloth/src/memory/cow.cpp:215-227 | after a failure at any stage nothing in use has changed |
| CowKernel.CoW.Install | YYSloth/src/memory/cow.cpp:131-140 | repointing the private table and dropping the replaced frames performs the fault step for every depth at which sharing may begin |
| CowKernel.CoW.PageFault | YYSloth/src/memory/cow.cpp:77-228 | a fault whose path passes the checks and whose page is copy-on-write is repaired exactly if, with n copy-on-write entries on the path, n frames were free and the first n temporary mappings succeed; exactly otherwise it reports that memory ran out, and nothing in use has changed. All other faults remove the process, or stop the machine, exactly if a kernel access fails a check; any access of a user, and any of the kernel outside the addresses of the tables themselves |
| CowKernel.CoW.constructor | YYSloth/include/memory/mminit.hpp:14-28 | the state start-up hands over satisfies the class invariant with nothing mapped |
| CowKernel.StartUp | YYSloth/include/memory/mminit.hpp:14-28 | from the memory the boot code leaves and the memory map, start-up builds a valid allocator and a valid address space with exactly the expected frames taken |
| CowKernel.SmallestMachine | YYSloth/include/memory/mminit.hpp:14-28 | such a start exists |
| CowKernel.CoW.Unshare | YYSloth/src/memory/cow.cpp:114-140 | the first exit: a private last-level table; from here on the path is repaired exactly if there are as many free frames and successful mappings as copy-on-write entries on it |
| CowKernel.CoW.UnshareP1 | YYSloth/src/memory/cow.cpp:141-169 | the second exit: a private table one level up |
| CowKernel.CoW.UnshareP2 | YYSloth/src/memory/cow.cpp:170-200 | the third exit |
| CowKernel.CoW.UnshareP3 | YYSloth/src/memory/cow.cpp:201-214 | the last exit: everything but the top table was shared |
| CowKernel.CoW.CopyStage | YYSloth/src/memory/cow.cpp:114-130 | one copying block with its failure exit: the table is copied, exactly if another frame is free and mapped; otherwise nothing in use has changed |
| FaultPass.CowCount | YYSloth/src/memory/cow.cpp:99-201 | the copy-on-write entries of a faulting path are those from the deepest private table down: that many frames a repair takes |
| FaultPass.ScratchFree | YYSloth/src/memory/cow.cpp:99-201 | every frame taken for a copy was free, and there is one fewer |
| CowKernel.CoW.GiveUp | YYSloth/src/memory/cow.cpp:215-227 | the failure exit of a block at any depth leaves everything in use as it was |
| CowKernel.CoW.WalkToWithAlloc | YYSloth/src/memory/vmbase.cpp:23-51 | in any table: the entry as it is, with user access added if asked for, or a fresh empty table under it; fails exactly if there is none and no frame is free |
| CowKernel.CoW.TakeFrame | YYSloth/src/memory/physalloc.cpp:113-131 | the kernel takes a frame nobody uses; no process sees it |
| CowKernel.CoW.GiveFrame | YYSloth/src/memory/physalloc.cpp:142-150 | a frame of the kernel's is free again; no process sees it |
| Words.SetBitIs | YYSloth/src/memory/physalloc.cpp:13 | setting a bit changes that bit alone |
| Words.ClearBitIs | YYSloth/src/memory/physalloc.cpp:14 | clearing a bit changes that bit alone |
| Words.LowestClear | YYSloth/include/utils.hpp:34-37 | the bit scan of the complement finds the lowest clear bit |
| Words.FullWord | YYSloth/src/memory/physalloc.cpp:118 | a word equals all ones exactly when no bit is clear |
| PhysMemory.PhysAllocator.constructor | YYSloth/src/memory/physalloc.cpp:91-109 | a frame is taken after start-up exactly if it lies below the first unused one or in an unavailable range; what was marked for boot information and ramdisk above that is not kept; and the allocator is sound if and only if the bits past the last frame were set before |
| PhysMemory.RamdiskNotKept | YYSloth/src/memory/physalloc.cpp:96-102 | a ramdisk frame above the first unused frame is free after start-up |
| PhysMemory.PhysAllocator.BitmapClearIndexRange | YYSloth/src/memory/physalloc.cpp:16-40 | word-at-a-time clearing clears each frame of the range and no other bit |
| PhysMemory.PhysAllocator.BitmapSetIndexRange | YYSloth/src/memory/physalloc.cpp:42-66 | word-at-a-time setting sets each frame of the range and no other bit |
| PhysMemory.LowestFree | YYSloth/src/memory/physalloc.cpp:116-121 | the lowest clear bit of the first word that is not full is the lowest free frame |
| PhysMemory.PhysAllocator.NewPage | YYSloth/src/memory/physalloc.cpp:113-131 | takes the lowest free frame whatever the hint says, with count 1; 0 exactly when none is free |
| PhysMemory.PhysAllocator.FreePage | YYSloth/src/memory/physalloc.cpp:142-150 | drops one reference; the frame is free exactly when that was the last |
| PhysMemory.PhysAllocator.IncrementRefCount | YYSloth/src/memory/physalloc.cpp:159-163 | adds one reference to one frame |
| Paging.RecursiveMapping | YYSloth/include/memory/vmbase.hpp:14-27 | if the last top entry maps the top table itself, the k-step table address of any address translates to the table at level k of that address's walk |
| Paging.FourthStepIsThePage | YYSloth/include/utils.hpp:146-149 | four steps and the canonical form give the page of the address itself |
| Paging.KernelAreaBelowTables | YYSloth/src/memory/kvmmngr.cpp:292-299 | no table address lies inside the kernel's allocation area |
| Paging.SamePath | YYSloth/include/memory/vmbase.hpp:14-25 | for every 64-bit address, the shifts and masks of the code on the word select the four indices that division gives on the number |
| Paging.NineBits | YYSloth/include/memory/vmbase.hpp:14-25 | masking nine bits of a word is the remainder by 512 and shifting them out the quotient |
| Paging.TablesOfAddress | YYSloth/include/memory/vmbase.hpp:77-83 | the table addresses the kernel computes for an address lead to the tables on that address's path, and the address to its page |
| Paging.PathInjective | YYSloth/include/memory/vmbase.hpp:14-25 | different lower-half pages have different index paths |
| Paging.KernelPathInjective | YYSloth/include/memory/vmbase.hpp:14-25 | different pages of the kernel half have different index paths |
| Paging.MarkIsFaithful | YYSloth/src/memory/cow.cpp:238-242 | the bit assignments of marking, on the 64-bit entry, are the marking of the model's entry |
| Paging.SetAddrIsFaithful | YYSloth/include/memory/vmbase.hpp:53-56 | setting the address keeps every flag and replaces the frame |
| Paging.ResolveIsFaithful | YYSloth/src/memory/cow.cpp:126-129 | the bit assignments of the handler are the repointing of the model's entry |
| Paging.NewLeafWord | YYSloth/src/memory/vmmap.cpp:46-52 | the word written for a new page: present, not copy-on-write, on the frame given, and writable, for users, managed and not executable exactly by bits 1, 2, 9 and 63 of the flags |
| Paging.OldLeafWord | YYSloth/src/memory/vmmap.cpp:79-85 | the word written for a page that is there: its frame and managed bit stay, the rest is as the flags say |
| Paging.NewTableWord | YYSloth/src/memory/vmbase.cpp:32-42 | the word written for a new table: present, writable, managed, executable, for users as asked; and a word of zeros is the empty entry |
| CowKernel.TableWord | YYSloth/src/memory/vmbase.cpp:32-42 | the entry the model makes for a new table is that word decoded |
| VmMap.LeafWords | YYSloth/src/memory/vmmap.cpp:46-85 | the entries of the model are those words decoded, for every word of flags and every word that was there |
| VmMap.WalkInUserHalf | YYSloth/src/memory/vmbase.cpp:23-51 | finds, creates or widens the next table; success is one table step, on a path of the caller's own tables; it fails exactly if a table is missing and no frame is free, and then changes nothing |
| VmMap.MapNewPageAt | YYSloth/src/memory/vmmap.cpp:5-88 | success maps a page that is not there, present, not copy-on-write and with exactly the requested flags, and gives one that is there the requested rights, keeping its frame and whether it is managed; it fails only if no frame is left, never for a page that is there, and then changes nobody's view |
| VmMap.MapStepMaps | YYSloth/src/memory/vmmap.cpp:5-78 | one mapping translates its page to a frame that was free and leaves the translation of every other address as it was, also under tables created on the way |
| VmMap.MapNewPages | YYSloth/src/memory/vmmap.cpp:147-158 | success gives every page of the range exactly the requested rights to read, write and execute, on a frame that was free if it was not there and with its old contents if it was, and no other address changes; it fails only if no frame is left, and then nobody sees any change outside the range |
| VmMap.RemapStepKeeps | YYSloth/src/memory/vmmap.cpp:79-85 | remapping leaves the translation of every address as it was |
| VmMap.MapSegment | YYSloth/src/proc/elf.cpp:91-112 | mapped for the kernel and then remapped, every page of a segment ends up with exactly the segment's rights, execution included, on a managed frame that was free or on its old one, and nothing else changes for anybody; it fails only if no frame is left |
| VmMap.RangeFramesDistinct | YYSloth/src/memory/vmmap.cpp:147-158 | two pages of the range never share a frame |
| VmUnmap.FreePageAt | YYSloth/src/memory/vmmap.cpp:90-101 | clears the entry of a page in a table of its own and drops the reference of a managed one; the state is sound afterwards if and only if the page is managed |
| VmUnmap.FreePages | YYSloth/src/memory/vmmap.cpp:175-179 | the managed pages of the range are gone from the caller's view, and nothing else changes for anybody |
| VmUnmap.FreedRangeIff | YYSloth/src/proc/userapi.cpp:158-167 | the range from the start to the size, which is what the call unmaps, is the one it was asked for if and only if the start is 0 or the size is |
| KernelMap.WalkInKernelHalf | YYSloth/src/memory/vmbase.cpp:23-51 | the next table of the kernel half, shared by all, found or made; no page moves; it fails exactly if there is none and no frame is free |
| KernelMap.MapKernelPageAt | YYSloth/src/memory/vmmap.cpp:5-88 | every address space gets the page, with exactly the requested flags, on the given frame or on one that was free, or with new rights if it was there; no other page of the kernel half moves and no process sees anything; it fails only if no frame is left |
| KernelMap.MapKernelPages | YYSloth/src/memory/vmmap.cpp:147-173 | the same for a range, on consecutive frames if a first one is given; two new pages never share a frame |
| KernelMap.UserTopStepIff | YYSloth/src/memory/vmbase.cpp:28-49 | a mapping for users through an entry of the top-level table leaves the kernel half closed to users if and only if the index is below 256 |
| KernelMap.UserTopEntry | YYSloth/src/memory/vmmap.cpp:7-15 | `mapNewPageAt` takes the first step to any address the user allocator hands out, and afterwards the kernel half is closed to users if and only if the address is below 2^47 |
| Security.LevelsDecide | YYSloth/src/memory/msecurity.cpp:4-12 | effective writability at each level decides both the permission check and, by the real write bits, the processor |
| Security.VirtualPageConditionCheck | YYSloth/src/memory/msecurity.cpp:13-62 | for every 64-bit address, accepts exactly pages present at all levels with the asked rights at all levels, and with `isCode` none |
| Security.VirtualRangeConditionCheck | YYSloth/src/memory/msecurity.cpp:64-74 | for every range, accepts exactly if every page the loop visits is accepted |
| Security.RangeCheckSoundness | YYSloth/src/memory/msecurity.cpp:64-74 | the loop visits the page of every byte if and only if the range is empty or rounding up its end stays below 2^64 |
| Security.VisitsInVainIff | YYSloth/src/memory/msecurity.cpp:64-74 | every page the loop visits holds a byte of the range, if and only if the range is not empty or starts on a page or on the last one |
| Security.AcceptanceMeansIff | YYSloth/src/memory/msecurity.cpp:64-74 | whatever is mapped, acceptance means that every byte is at a canonical address on an accepted page, if and only if the range is empty, ends at or below 2^47, or lies in the canonical upper half and does not wrap when its end is rounded up |
| Security.UserAcceptanceMeansIff | YYSloth/src/memory/msecurity.cpp:64-74 | as long as no page of the upper half is open to users, acceptance by the user check means the same if and only if the range is empty, ends at or below 2^47, or is refused because it touches a page with bit 47 set |
| Security.UpperVisit | YYSloth/src/memory/msecurity.cpp:64-74 | whether the loop comes to a page of the upper half can be told from the rounded ends of the range |
| Security.WrappingRangeExample | YYSloth/src/memory/msecurity.cpp:64-74 | one byte on the last page of the address space is accepted without a check |
| Security.NonCanonicalExample | YYSloth/src/memory/msecurity.cpp:17-23 | the byte at 0x1000000001000, which no access can reach, is checked as the page at 0x1000 |
| Security.UpperRangeExample | YYSloth/src/memory/msecurity.cpp:17-23 | the byte at 0x800100000000, which no access can reach, is checked as the kernel page at 0xFFFF800100000000, and so accepted once that is open to users |
| Security.AcceptedRange | YYSloth/src/memory/msecurity.cpp:64-74 | in any state, after a user check of a range that meets the first condition, or the second if no entry of the upper half is open to users, every byte is at a canonical address on an accepted page |
| Security.CheckedWrite | YYSloth/src/memory/msecurity.cpp:64-74 | while the upper half is closed to users, a user write to any byte of a range the user check accepted never kills the process: it is performed exactly if there are frames and mappings for the copy-on-write entries on its path, and pending otherwise |
| Security.AcceptanceLasts | YYSloth/src/memory/msecurity.cpp:13-62 | a page accepted as user-writable stays so through every event of a run, until its own process exits or is killed, or unmaps that page or gives it other rights |
| Security.AcceptedPassesChecks | YYSloth/src/memory/msecurity.cpp:13-62 | a write to a page accepted as user-writable never reaches the violation path |
| Security.RepairFinishesPath | YYSloth/src/memory/cow.cpp:99-213 | one repair removes all copy-on-write entries of the path, of which there was one, and then the processor allows the write exactly if the permission check accepted the page |
| Security.UserWrite | YYSloth/src/memory/cow.cpp:57-214 | a write to any canonical address ends after at most two faults: performed exactly for accepted pages whose copy-on-write entries can be copied; pending, with nothing changed, exactly if the path passes the handler's checks and there are not enough frames or mappings for its copy-on-write entries; killed in all other cases |
| FreeList.CanonicalIsUnique | YYSloth/src/memory/kvmmngr.cpp:104-149 | a sorted list without empty or touching areas is determined by the set of free addresses |
| FreeList.CarveKeepsForm | YYSloth/src/memory/kvmmngr.cpp:235-240 | taking the front of an area keeps the form and removes exactly those addresses |
| FreeList.MergeKeepsForm | YYSloth/src/memory/kvmmngr.cpp:104-125 | fusing an area with the neighbours it touches restores the form and keeps the addresses |
| FreeList.ReturnKeepsForm | YYSloth/src/memory/kvmmngr.cpp:127-149 | giving back addresses that were not free keeps the form and adds exactly those addresses |
| FreeList.FitIffRun | YYSloth/src/memory/kvmmngr.cpp:196-209 | in such a list some area is large enough exactly when there is a contiguous free run of that size |
| KernelAreas.KernelVirtualAllocator.constructor | YYSloth/src/memory/kvmmngr.cpp:283-303 | start-up spends the first page of the range on descriptors and frees the rest into the empty list: one area, nothing taken |
| KernelAreas.KernelVirtualAllocator.InsertBefore | YYSloth/src/memory/kvmmngr.cpp:80-91 | links a node in before another, both directions and the head kept consistent |
| KernelAreas.KernelVirtualAllocator.CutNode | YYSloth/src/memory/kvmmngr.cpp:93-102 | unlinks one node and no other |
| KernelAreas.KernelVirtualAllocator.AbsorbPrev | YYSloth/src/memory/kvmmngr.cpp:112-118 | takes over the left neighbour's addresses and unlinks it |
| KernelAreas.KernelVirtualAllocator.AbsorbNext | YYSloth/src/memory/kvmmngr.cpp:119-124 | takes over the right neighbour's addresses and unlinks it |
| KernelAreas.KernelVirtualAllocator.MergeAdjacent | YYSloth/src/memory/kvmmngr.cpp:104-125 | fuses a node with exactly the neighbours it touches |
| KernelAreas.KernelVirtualAllocator.Link | YYSloth/src/memory/kvmmngr.cpp:133-146 | links a node in before the first area that starts later, or last |
| KernelAreas.KernelVirtualAllocator.FreeMapping | YYSloth/src/memory/kvmmngr.cpp:127-149 | the list becomes the old one with the area given back and fused |
| KernelAreas.KernelVirtualAllocator.FindBestFit | YYSloth/src/memory/kvmmngr.cpp:196-209 | finds the smallest area that fits, the first among equals; fails exactly when no free run of the size exists |
| KernelAreas.KernelVirtualAllocator.Carve | YYSloth/src/memory/kvmmngr.cpp:235-240 | the front of the area goes, and its node when nothing is left |
| KernelAreas.KernelVirtualAllocator.GetMapping | YYSloth/src/memory/kvmmngr.cpp:211-244 | succeeds exactly if a free run exists and mapping works, with addresses nobody held; otherwise the list is unchanged |
| KernelAreas.KernelVirtualAllocator.FreeRange | YYSloth/src/memory/kvmmngr.cpp:246-274 | the range is no longer taken, every other address is as before, and the list stays canonical |
| KernelAreas.KernelVirtualAllocator.AllGivenBack | YYSloth/src/memory/kvmmngr.cpp:246-281 | with nothing taken the list is the one initial area |
| KernelAreas.RunKeepsPartition | YYSloth/src/memory/kvmmngr.cpp:211-281 | in every run of takes and gives, free and held addresses partition the region and the list is canonical |
| KernelAreas.HistoryLeavesNoTrace | YYSloth/src/memory/kvmmngr.cpp:211-281 | two runs that hold the same addresses have the same list, so giving everything back, in any order and any pieces, restores the initial area |
| UserAreas.CutOutKeepsOrder | YYSloth/src/memory/usrvmmngr.cpp:78-102 | cutting a range out of one area removes exactly it, keeps the order, and leaves no area empty |
| UserAreas.UserVirtualAllocator.constructor | YYSloth/src/memory/usrvmmngr.cpp:17-28 | one area from 0x1000 to 2^48 |
| UserAreas.UserVirtualAllocator.FindBestFit | YYSloth/src/memory/usrvmmngr.cpp:30-42 | finds the smallest area strictly larger than the request, the first among equals |
| UserAreas.UserVirtualAllocator.CutFrom | YYSloth/src/memory/usrvmmngr.cpp:78-102 | the range is cut out of one area, or nothing changed because a split found no node; when the end of the range wraps around into the area, the overlap ends up in two areas |
| UserAreas.UserVirtualAllocator.LinkAfter | YYSloth/src/memory/usrvmmngr.cpp:94-99 | the split's new node follows the old one in the list, linked in both directions |
| UserAreas.UserVirtualAllocator.Alloc | YYSloth/src/memory/usrvmmngr.cpp:63-76 | takes the front of the best fit, or returns 0 exactly when no area is strictly larger; no area ever becomes empty |
| UserAreas.UserVirtualAllocator.Reserve | YYSloth/src/memory/usrvmmngr.cpp:108-121 | succeeds exactly if one area holds both ends of the range, in 64-bit arithmetic, and a split finds its node; the list stays well-formed, and exactly the range is taken, if and only if the end does not wrap around |
| UserAreas.ExactFitExample | YYSloth/src/memory/usrvmmngr.cpp:30-42 | on a fresh list a request for all of it is free and is refused |
| UserAreas.UserVirtualAllocator.CopyNodes | YYSloth/src/memory/usrvmmngr.cpp:247-268 | a fresh chain with the same areas in the same order, linked in both directions; the list being non-empty, it has a last node to end it; what the first node says comes before it is not set |
| UserAreas.UserVirtualAllocator.Copy | YYSloth/src/memory/usrvmmngr.cpp:242-273 | a fresh allocator with the same free areas and break, or null exactly when nodes run out |
| Elf.ParseSegments | YYSloth/src/proc/elf.cpp:57-85 | accepts exactly if every entry is null or a load entry that starts at or after the end of the last one; fills one area per load entry, with its offsets and sizes, its pages, and as flags: for users, writable and executable by bits 1 and 0 of the header's |
| Elf.CoversIffNoWrap | YYSloth/src/proc/elf.cpp:65-82 | the area of an entry covers its segment if and only if the segment ends at least a page below 2^64 |
| Elf.UncoveredExample | YYSloth/src/proc/elf.cpp:65-82 | an accepted header whose area ends at address 0 |
| Elf.FreeTwiceExample | YYSloth/src/proc/elf.cpp:118-132 | an accepted header whose reservation wraps around and leaves addresses free twice |
| Elf.WrappingIsNotAscending | YYSloth/src/proc/elf.cpp:57-85 | two accepted headers in descending order, the first of which wraps |
| Elf.UpperSegmentExample | YYSloth/src/proc/elf.cpp:57-85 | an accepted header whose area, all of it above 2^47, a fresh allocator reserves |
| Elf.AcceptedIffAscending | YYSloth/src/proc/elf.cpp:57-85 | when no segment wraps, the one-pass check accepts exactly the load segments that ascend without sharing a page, above page 0 |
| Elf.AcceptedIsLoadable | YYSloth/src/proc/elf.cpp:57-85 | accepted headers give ascending, disjoint areas |
| Elf.ReachNext | YYSloth/src/proc/elf.cpp:119-130 | for loadable areas a step of the loop fails only for want of a node or of pages |
| Exec.SegmentRights | YYSloth/src/proc/elf.cpp:73-79 | a segment is for users, writable and executable as its header says |
| Exec.AcceptedIsMappable | YYSloth/src/proc/elf.cpp:57-85 | accepted headers without a wrapping segment that end at or below 2^47 can be loaded |
| Exec.LoadArea | YYSloth/src/proc/elf.cpp:119-130 | one segment reserved and mapped: its pages join the caller's view with the segment's rights, and nothing else changes for anybody; fails only if the range cannot be cut out of the free list or no frame is left |
| Exec.Load | YYSloth/src/proc/elf.cpp:118-132 | success reserves exactly the union of the segments, and the caller sees exactly their pages with their rights; it fails only if a range cannot be cut out or no frame is left, on a fresh allocator with limits below 2^48 only for want of nodes or frames; nobody else ever sees a change |
| Exec.TakeRoom | YYSloth/src/proc/userapi.cpp:263-266 | room taken for the arguments after loading overlaps no segment; there is none exactly if no free area is strictly larger |
| Exec.ExecuteBinary | YYSloth/src/proc/userapi.cpp:249-270 | from the point of no return: on success the caller sees exactly the pages of the segments, with their rights, and the argument pages, for users, writable and executable, whatever it had before; it fails only for a range that cannot be reserved, for want of frames, or if no free area is larger than the arguments; whatever happens nobody else sees any change, and the invariant holds |
| RunList.MoveKeepsForm | YYSloth/src/proc/proc.cpp:43-122 | every scheduler operation keeps the run list free of duplicates with the idle process on it |
| RunList.ScheduleIff | YYSloth/src/proc/proc.cpp:43-50 | a switch turns the ring by one place, or by two exactly if the idle process is next and has no stack to free |
| RunList.SuspendIff | YYSloth/src/proc/proc.cpp:111-122 | suspending takes one process out and leaves the order of the others; if it ran, the next one takes over, passing over an idle process without a stack to free |
| RunList.IdleWaits | YYSloth/src/proc/proc.cpp:43-50 | with no stack to free, a switch leads to the idle process exactly if there is no other |
| RunList.MoveNears | YYSloth/src/proc/proc.cpp:43-122 | a context switch brings a waiting process strictly nearer, and adding, removing or skipping others never pushes it back; the idle process too, if there is a stack for it |
| RunList.BoundedWaiting | YYSloth/src/proc/proc.cpp:43-122 | in every run a waiting process runs within as many switches as processes were ahead of it; so does the idle process as long as there is a stack for it to free |
| Processes.ProcessManager.constructor | YYSloth/src/proc/proc.cpp:79-98 | start-up: the idle process alone on the run list under PID 0 and no stack in the pool; taken besides are the PIDs from 8192 up whose bits were set before, the clearing being by bytes; and the process table is sound if and only if nothing left in it looks like a child that died under a PID nobody holds |
| Processes.ProcessManager.NewProcess | YYSloth/src/proc/proc.cpp:29-39 | takes the lowest free PID whatever the hint says; PID_MAX exactly when none is free |
| Processes.ProcessManager.FreePid | YYSloth/src/proc/proc.cpp:54-60 | one PID is free again and no other changes |
| Processes.ProcessManager.Schedule | YYSloth/src/proc/proc.cpp:43-52 | the successor of the head runs, unless that is the idle process and no stack is free, and then the one after; it resumes the state it was stopped in, and no other state changes |
| Processes.ProcessManager.Yield | YYSloth/src/proc/proc.cpp:41-52 | a switch turns the whole ring by one place, or by two past an idle process without a stack to free, keeping every invariant; the idle process does not run while there are others and no stack is free |
| Processes.ProcessManager.AddToRunList | YYSloth/src/proc/proc.cpp:100-109 | the process joins last, just before the head, the ring staying closed in both directions |
| Processes.ProcessManager.SuspendFromRunList | YYSloth/src/proc/proc.cpp:111-122 | the process leaves the ring, which stays closed with the others in their order; if it was running, the next one runs, from the state it was stopped in |
| Processes.ProcessManager.Fork | YYSloth/src/proc/userapi.cpp:57-105 | the process table's part: success exactly if a PID, a stack and all copies can be had: a child of the caller under the lowest free PID, last in the run list; otherwise no PID and no stack is lost and the run list is unchanged |
| Processes.ProcessManager.BeginFork | YYSloth/src/proc/userapi.cpp:59-70 | a PID and a stack, or neither |
| Processes.ProcessManager.TakePid | YYSloth/src/proc/userapi.cpp:59-63 | the lowest free PID, with nothing taken when there is none |
| Processes.ProcessManager.TakeStack | YYSloth/src/proc/userapi.cpp:66-70 | a stack, or the PID goes back |
| Processes.ProcessManager.SetUp | YYSloth/src/proc/proc.cpp:62-77 | takes a stack from the pool if it has one, else asks for a new one, and a user allocator if asked for; without that the stack goes to the pool |
| Processes.ProcessManager.Exit | YYSloth/src/proc/proc.cpp:134-155 | the running process leaves the run list, is marked dead with its return code, gives back its stack, and keeps its PID and parent until it is reaped; the next in the ring runs, be it the idle process, which now has a stack to free |
| Processes.ProcessManager.GetProcStatus | YYSloth/src/proc/userapi.cpp:177-200 | only the parent gets an answer, with the code the child exited with; a dead child's PID is freed with it and, unless the idle process asks, was held until then, so it is freed once |
| Processes.ProcessManager.IdleReapsAgain | YYSloth/src/proc/userapi.cpp:182-197 | why the idle process is excepted: parent 0 stands for it and for reaped children alike |
| ForkCall.SysFork | YYSloth/src/proc/userapi.cpp:57-105 | the whole call, on processes and address spaces, the pages of a new stack included: a fork step and a child, or no process and one of: nothing changed but what the kernel mapped, the caller's user half emptied, or forked and then the caller's user half emptied; each exactly under its condition on the PIDs, the stacks, the copies that succeed, the temporary mapping and the frames that are free once there is a stack |
| ForkCall.NewStack | YYSloth/src/proc/stackpool.cpp:10-22 | a stack from the pool, or sixteen new pages in every address space, for the kernel alone, writable and not executable, each on a frame of its own; without either, no frame is left, or the kernel has no room |
| ForkCall.CleanUpFailed | YYSloth/src/proc/proc.cpp:124-132 | `cleanup` for the new process empties the address space in use, the caller's |
| ForkCall.FailedForkKeepsViewsIff | YYSloth/src/proc/userapi.cpp:71-97 | a failed fork changes no view of the others, and none at all exactly if it failed for want of a PID or a stack or the caller maps nothing |
| ForkCall.SysExit | YYSloth/src/proc/proc.cpp:134-155 | exit performs the exit step on the caller's address space and leaves its process dead, with its return code, off the run list; the next one runs |
| Ramdisk.GetSize | YYSloth/src/fs/ramdiskfs.cpp:7-14 | reading characters from the right with growing base gives the 64-bit value of any field, and the octal value of one that is octal |
| Ramdisk.DigitsRoundTrip | YYSloth/src/fs/ramdiskfs.cpp:7-14 | writing a number in octal and reading it back gives the number |
| Ramdisk.NextOutside | YYSloth/src/fs/ramdiskfs.cpp:39 | whatever follows a child, sibling or end of the parent, fails the prefix test against the child's name |
| Ramdisk.RamdiskFsSuperblock.StrEqN | YYSloth/include/utils.hpp:80-87 | true exactly if the first n bytes agree |
| Ramdisk.RamdiskFsSuperblock.StrLen | YYSloth/include/utils.hpp:89-97 | the distance to the first zero byte |
| Ramdisk.RamdiskFsSuperblock.StrHash | YYSloth/include/utils.hpp:119-125 | the 64-bit hash is a function of the name alone |
| Ramdisk.RamdiskFsSuperblock.Next | YYSloth/src/fs/ramdiskfs.cpp:16-18 | the next header is the first 512-byte boundary at or after the contents |
| Ramdisk.RoundUp | YYSloth/include/utils.hpp:15-17 | the first 512-byte boundary at or after a length |
| Ramdisk.Serialise | YYSloth/src/fs/ramdiskfs.cpp:16-18 | a file in the archive is its header, its contents and fewer than 512 zero bytes up to a boundary |
| Ramdisk.RamdiskFsSuperblock.EntryName | YYSloth/src/fs/ramdiskfs.cpp:40-45 | the part of a full name after the parent's, without the slash of a directory, is the child's name |
| Ramdisk.RamdiskFsSuperblock.ParseHeader | YYSloth/src/fs/ramdiskfs.cpp:33-59 | for every well-formed tree in the image, appends its nodes in post-order, returns the number of its root, and leaves the lookahead at the first header after it |
| Ramdisk.RamdiskFsSuperblock.Mount | YYSloth/src/fs/ramdiskfs.cpp:61-72 | the mounted table represents exactly the tree, rooted at the last node |
| Ramdisk.RamdiskFsSuperblock.Lookup | YYSloth/src/fs/ramdiskfs.cpp:87-95 | search by hash and name finds the child of that name, and 0 exactly if there is none |
| Ramdisk.NodesRepresent | YYSloth/src/fs/ramdiskfs.cpp:48-57 | a stretch of post-order nodes represents its tree wherever it stands in the table |
| Ramdisk.RepresentsOneTree | YYSloth/src/fs/ramdiskfs.cpp:48-57 | a table represents at most one tree under one number |
| Ramdisk.SerialisedHolds | YYSloth/src/fs/ramdiskfs.cpp:33-59 | the archive of any well-formed tree is an image `Mount` accepts for that tree, so archiving and mounting gives the tree back |
| Slab.SmallRequestHasClass | YYSloth/src/memory/kheap.cpp:141-154 | every request below the slab limit has a size class with a valid index |
| Slab.SlotsFit | YYSloth/src/memory/kheap.cpp:37-56 | for every size class all slots lie in the page after the metadata, and none reaches into the next |
| Slab.SlotsFollow | YYSloth/src/memory/kheap.cpp:37-41 | the first slot follows the metadata and each slot the one before it |
| Slab.MaxCountBounds | YYSloth/src/memory/kheap.cpp:42-47 | by the count of the code a page less 16 bytes has room for that many objects with 48 bytes each, and not for one more |
| Slab.ObjectsApart | YYSloth/src/memory/kheap.cpp:37-56 | no two live objects share a byte |
| Slab.SmallObjectPool.constructor | YYSloth/src/memory/kheap.cpp:48-56 | a new pool chains all its slots, each once |
| Slab.SmallObjectPool.Alloc | YYSloth/src/memory/kheap.cpp:57-65 | takes the first free slot, which was not live; 0 exactly when none is free |
| Slab.SmallObjectPool.Free | YYSloth/src/memory/kheap.cpp:66-70 | a live slot becomes free, the chain staying free of duplicates and within the capacity |
| Slab.SizeClass.CutPoolFrom | YYSloth/src/memory/kheap.cpp:79-89 | a pool leaves its bucket and no other list changes |
| Slab.SizeClass.InsertPoolTo | YYSloth/src/memory/kheap.cpp:91-99 | a pool becomes the first of a bucket and no other list changes |
| Slab.SizeClass.Scan | YYSloth/src/memory/kheap.cpp:110-113 | finds the first non-empty bucket from the hint upwards |
| Slab.SizeClass.AllocFrom | YYSloth/src/memory/kheap.cpp:114-124 | hands out an object nobody holds and moves the pool to the bucket of its new count |
| Slab.SizeClass.AllocFromSlubs | YYSloth/src/memory/kheap.cpp:105-126 | whatever the hint, the result is an object nobody holds, or 0 exactly if no page has as many free slots as the hint says |
| Slab.SizeClass.RoomIsInBuckets | YYSloth/src/memory/kheap.cpp:110-113 | the buckets from n upwards are empty exactly if no page has n free slots |
| Slab.SizeClass.RoomForSome | YYSloth/src/memory/kheap.cpp:57-65 | a page has a free slot by its count exactly if one of its slots is not live |
| Slab.SizeClass.GetNewPool | YYSloth/src/memory/kheap.cpp:128-139 | a new page joins the full bucket and hands out nothing |
| Slab.SizeClass.Alloc | YYSloth/src/memory/kheap.cpp:153-164 | an object nobody holds; a new page is taken exactly if no page has as many free slots as the hint says, and 0 returned exactly if then none could be had |
| Slab.SizeClass.Free | YYSloth/src/memory/kheap.cpp:173-189 | exactly that object is no longer held, and its page is unmapped exactly if no other live object is on it |

## Left out

- CowKernel.CoW.NewPageTable: assumes a free frame, because the code uses the result of its allocations without looking at it.
- CowKernel.CoW.CopyLeaf: the temporary mapping is a boolean; frames and addresses it takes for kernel tables are outside the state.
- CowKernel.CoW.CopyLevel: the temporary mapping is a boolean; frames and addresses it takes for kernel tables are outside the state.
- CowKernel.CoW.CleanUp: speaks of the frames of the fault only, not of those the temporary mapping may have taken.
- FaultPass.CleanedUp: speaks of the frames of the fault only, not of those the temporary mapping may have taken.
- CowKernel.CoW.CheckAndMoveToNext: accesses in kernel mode to the addresses of the tables themselves, where the last step reaches a table, are not modelled.
- CowKernel.CoW.CheckPath: the same.
- CowKernel.CoW.PageFault: the same; the access itself is performed by `UserWrite` for user writes only.
- CowKernel.StartUp: `TempPhysAllocator`, the boot code and the loop that makes the missing tables of the kernel half are not modelled; their result is the parameter. The bits past the last frame are taken to be set.
- PhysMemory.PhysAllocator.NewPage: `mapCount`, which it sets to 1, is not modelled.
- CowKernel.CoW.ClonePageTable: the temporary mapping is a boolean; frames it takes for kernel tables are outside the state.
- CowKernel.CoW.WalkToWithAlloc: `mapCount` is not modelled.
- VmMap.WalkInUserHalf: on paths without copy-on-write entries; `NewEntryKeepsInvIff` says what happens on others.
- VmMap.MapNewPageAt: addresses of the lower half, on paths without copy-on-write entries (`UserTopEntry` and `NewEntryKeepsInvIff` say what happens to others); when it fails, the tables made on the way stay, the rollback arms and `mapCount`, which starts at 1 and is decremented on failures that never incremented it, not being modelled.
- VmMap.MapNewPages: the same addresses and paths; when it fails the pages mapped so far stay (the undoing loop is not modelled).
- VmMap.MapSegment: segments that end at or below 2^47; the file that fills the segment between the two mappings is not modelled, and when it fails the pages mapped so far stay.
- VmMap.LeafWords: for words of flags that hold no address, set the present bit and leave the two copy-on-write bits clear, as all callers' do; the caching bits are not part of an entry.
- VmUnmap.FreePageAt: pages in tables of their own; `mapCount` is not modelled, so tables stay until exit, whereas a copied table, whose count starts at 1 whatever it holds, would go with the first of its pages.
- VmUnmap.FreePages: the same.
- KernelMap.MapKernelPageAt: `mapCount` is not modelled; a managed page of a given frame, which nothing asks for, is excluded.
- KernelMap.MapKernelPages: the same; on failure the pages mapped so far stay, the undoing loop not being modelled.
- KernelMap.UserTopEntry: only the first step of the mapping; the state after it is outside the invariant.
- CowShared.MapAfterFork: a last-level entry; the same holds of a new table.
- Security.AcceptanceLasts: of unmappings, that of a managed page in a table of its own is an event of a run; others are not.
- Security.VirtualRangeConditionCheck: its sibling `validateCString` is not modelled.
- Security.UserWrite: the addresses that are not canonical are refused by the processor before any table is read, and are left out.
- KernelAreas.KernelVirtualAllocator.constructor: the pool in the first page is only left out of the region.
- KernelAreas.KernelVirtualAllocator.GetMapping: whether the pages could be mapped is a parameter; the descriptor pools, which take pages of the same region, are not modelled; a request of size 0 only promises that nothing is taken.
- KernelAreas.KernelVirtualAllocator.FreeRange: area descriptors are fresh objects; the descriptor pools (`insertPool`, `freePools`, `allocNewPool`) are not modelled, nor is the unmapping of pages in `unmapAt` that precedes it.
- KernelAreas.KernelVirtualAllocator.AllGivenBack: pages the descriptor pools take are not accounted for.
- KernelAreas.RunKeepsPartition: pages the descriptor pools take are not accounted for.
- KernelAreas.HistoryLeavesNoTrace: pages the descriptor pools take are not accounted for.
- KernelAreas.KernelVirtualAllocator.CutNode: the descriptor of an unlinked node is not reused.
- UserAreas.UserVirtualAllocator.Alloc: the arm for an area that became empty cannot be reached and is not written.
- Slab.SizeClass.AllocFromSlubs: the update of the search hint is not modelled: the hint is arbitrary.
- Slab.SizeClass.GetNewPool: the page is a parameter, and the hint update is not modelled.
- Slab.SizeClass.Alloc: the large requests that bypass the slabs are not modelled; the new page is a parameter.
- UserAreas.UserVirtualAllocator.Copy: whether nodes can be had is a count of the nodes the heap supplies; a list abandoned half way is not given back, as in the code.
- Elf.ParseSegments: reading the file and `verify` are not modelled.
- Elf.AcceptedIffAscending: for headers without a wrapping segment; `WrappingIsNotAscending` shows why.
- Elf.AcceptedIsLoadable: for headers without null entries and without a wrapping segment, with limits below 2^48.
- Exec.Load: areas of null entries, whose ranges are uninitialised, areas whose limit lies below their base, whose reservation `Reserve` describes, and areas that end between 2^47 and 2^48, whose mapping `UserTopEntry` describes, are excluded; the undoing of a failed load and the contents of the segments are not modelled.
- Exec.LoadArea: the same areas are excluded.
- Exec.ExecuteBinary: the same areas are excluded, and the model stops where the arguments would be above 2^47; the copying of the arguments, the checks before the point of no return and the exit after a failure are not modelled.
- Processes.ProcessManager.Fork: the process table alone; `SysFork` adds the address spaces. What is copied into the child besides its PID, parent and liveness is a success parameter.
- Processes.ProcessManager.SetUp: the user allocator is a success parameter.
- ForkCall.SysFork: where the kernel finds room for a new stack is a parameter; the registers and the kernel stack copied into the child, its user allocator and its descriptors are not modelled; whether their copies succeed is a parameter.
- ForkCall.SysExit: the allocator and the descriptors of the process are not modelled.
- Processes.ProcessManager.Exit: of the running process; killing another one is not modelled. Its memory is given back in `SysExit`; its allocator and descriptors are not modelled.
- Processes.ProcessManager.constructor: the words that are not cleared are a parameter; the array the code allocates is 64 times as long as the part it uses; the stack and the allocator of the idle process are not modelled.
- Processes.ProcessManager.Schedule: a register state is one number; the FPU state and the task-state segment are not modelled.
- Ramdisk.RamdiskFsSuperblock.ParseHeader: on images that hold a well-formed tree followed by a readable header that does not carry its name; others may make the original run past the image.
- Ramdisk.RamdiskFsSuperblock.Next: for headers whose size field is octal.
- Ramdisk.RamdiskFsSuperblock.Mount: on such images, with the tree at offset 0.
- Ramdisk.RamdiskFsSuperblock.Lookup: names are compared as sequences, `streq` being their equality.
- Slab.SizeClass.Free: the hint update, which writes to another class's entry, is not modelled: the hint is arbitrary at each allocation. `realSize` is taken as a correct tag for small objects; large objects are not modelled.
- `UserVirtualAllocator::free`, whose merging arm can absorb an area beyond the freed range, and `sbrk`.
- Locks, semaphores and process queues: operations are atomic steps.
- TLB and cache maintenance: the processor reads the tables directly.
- `TempPhysAllocator`, `copyOnWrite`, `PhysAllocator::freePages`: start-up and unused code.
- `DynArray` relocation: arrays that grow are sequences.
- The descriptor table, the VFS cache, the device file system, drivers, interrupt tables, logging, the shell and boot code: input, output and hardware.
