# Kumo OS: a verified model

This project models the core of Kumo OS, a small 32-bit x86 kernel, in Dafny, and proves what its
components promise: a task reaches only the pages that were listed for it, and two tasks share exactly
the pages that were listed for both; the allocators never hand out the same memory twice; page tables,
heap, kernel stacks and control blocks stay apart in one memory over every run, from any boot path that
respects the condition of `kfree`; context switches lose nothing; files behave as named byte sequences;
a loaded program is the program of its file; the cursor leaves no trace on the screen, and no damaged
pixel is forgotten. Where the code falls short of such a promise, the exact condition and an input are
given.

`dafny verify dfyconfig.toml` checks everything.

## Structure

| file | component |
|---|---|
| Words.dfy | 32-bit words and wrap-around |
| Pmm.dfy | physical page allocator: bitmap, two windows, runs of requests |
| PageTables.dfy | entries, the hardware walk, isolation over runs |
| Paging.dfy | arch/x86/paging.c in place on physical frames |
| Sharing.dfy | which pages tasks share |
| HeapState.dfy, HeapRuns.dfy, Kheap.dfy | the heap as a value, its runs, and mm/kheap.c in place |
| FreeSoundness.dfy, SelfCheck.dfy | exactly when `kfree` is sound, and what `heap_tests` does to the heap |
| Switching.dfy, Tasks.dfy | tasks and context switch as values, and sched/ in place |
| UserCopy.dfy | user pointer checks and copies |
| Kernel.dfy | control blocks and page directories; what the allocators give to task creation |
| OneMemory.dfy, Machine.dfy, MachineRuns.dfy, Boot.dfy | the whole kernel on one memory: invariant, steps, runs, boot path |
| Line.dfy, Pixels.dfy, Cursor.dfy, Damage.dfy | line drawing, framebuffer, mouse cursor, dirty rectangle |
| Elf.dfy, FileModel.dfy, RamFs.dfy, Exec.dfy | ELF loader, files as values, VFS and RamFS in place, exec |

Code that updates state is a class whose methods work on arrays, fields and linked nodes; each
method is tied to a function on values, and the main theorems are about those functions: one step
keeps the invariant, and then every run does.

## How memory is modelled

* Physical memory of paging.c is an array of frames of 1024 words; the frames used as tables have
  roles, and freshness comes from the page allocator's bitmap.
* The heap and the scheduler work on an array of words indexed by byte address; one cell stands for
  the word at each multiple of 4. Free-list links, headers, stacks and control blocks live there.
* The whole kernel (`Machines.Sound`) has one memory: the frames of the kernel region and the words by
  address are equal at all times, and every step is stated on both.
* The framebuffer is an array of pixels that keep as many bits as the depth has.
* `uint32_t` arithmetic wraps explicitly (`Wrap`); `int32_t` arithmetic is proved to stay in range.

## What the code demands, and what is false of it

* `run_exec` hands one registered code page to every task it starts, so such tasks share a page that
  both can write (`Sharing.OnePageTwice`).
* `kfree` needs the page of the freed block to start on a block boundary. mm/kheap.h:8-12 says that
  this always holds; `kheap_init` and `heap_expand` make blocks of many pages, so it does not
  (`FreeSoundness.SecondBlockUnsound`). `kfree` is sound for all contents of memory exactly under this
  condition or when the page starts with the first link of a free list of at least two blocks
  (`FreeSoundness.FreeSoundExactly`); otherwise some contents make it run for ever or break the list.
  No caller checks the condition: `ramfs_write` and the failure paths of fs/ramfs.c (46, 222),
  `vfs_close`, `exec_elf_from_path`, kmain (kernel/main.c:837), the buffers of
  arch/x86/syscall_dispatch.c (43-106), and `heap_tests`.
* `heap_tests`, which kmain runs after `kheap_init` (kernel/main.c:498), violates it on every boot on
  which its allocations succeed: the ninth free of its last test leaves memory that is no heap
  (`SelfCheck.SelfCheckBreaksHeap`). What is
  proved here about runs of the heap and of the whole kernel is therefore about a kernel that boots
  without this self-check; `BootRuns` takes every other boot path in, under the condition of `kfree`.
* `kmalloc` returns too small a block for requests above 2^32 - 16 bytes, exactly
  (`HeapRuns.NeededHoldsRequest`).
* `switch_to` does not load CR3 for a task whose `cr3` is 0, so the idle task keeps the last
  directory. `Kernel.CheckerAgrees` says exactly when the software check then still agrees with the
  hardware; `BootRuns.StaleDirectoryReached` is a run from boot after which it does not.
* A creation whose `kmalloc` fails stores through a null pointer; the model's runs do not continue there.
* `paging_set_user_accessible_for_task` does not check the frame for the private table
  (arch/x86/paging.c:342); with no frame left the store faults on page 0, which is unmapped, and
  the model stops there (`None`, `Faulted`).
* `is_user_accessible_range` rejects accessible ranges that end above 0xFFFFF000, exactly; it needs
  page 0 to be inaccessible to terminate, which `Kernel.NoLowPages` provides.
* `paging_init` is proved for memory up to 2^32 - 4 MB and enough kernel-region pages for the tables;
  `paging_map_phys_range` for ranges whose rounded end does not wrap.
* `draw_line` needs both coordinate differences, and their negations, to fit an `int32_t`, exactly
  (`Pixels.NoOverflowExactly`).
* The cursor is on the screen from the start exactly on screens of at least 23 by 39 pixels; erasing
  it is exact on every screen.
* `wm_mark_dirty` clips correctly exactly if the far edges of the mark are below 2^32.
* `window_draw` leaves one column and one row inside the right and the lower border of a window unpainted,
  where what lies below shows through (`Damage.WindowPaints`).
* The close button lies in the window's frame exactly from 22 pixels of width on, the title exactly if
  its glyphs fit. A flush skips windows that it meets only in the last column or row, which erases their
  border, and draws lower windows over higher ones (`Damage.FlushExactly`).
* `elf_load` dumps 55 bytes at `load_base` before it returns, and a fault there halts the machine: a
  program linked at 0x08048000 (docs/decisions.md:176) does not survive its loading
  (`Elf.LoadReturnsExactly`, `Elf.TraditionalAddressFaults`). Programs linked at 0, as all of the
  repository's are, do. Its `kmalloc` is not checked either, and a null page list halts the machine too.
  Nor are the headers: a segment whose p_filesz reaches past the pages is copied past them
  (`Elf.PassTwoStaysExactly`).
* The initial user stack fits its page exactly for program names of at most 4080 bytes with NUL; callers
  pass at most 256. Its dump runs into the next page exactly for names of at most 3 bytes.
* Names longer than 63 bytes are cut when a file is created but split when it is looked up, so such
  a file is never found again; 63 is exact.
* `ramfs_read` and `ramfs_write` compute offset + size in 32 bits; they are used below 2^32, and for
  reads this is exact (`FileModel.ReadCountExact`).
* `exec_elf_from_path` opens its file with `vfs_open`, which creates a missing one; its page list has
  32 entries, and images of more than 31 pages are stored past its end (`Exec.PageList`,
  `Exec.LargeImage`).
* The open flags are stored and never consulted: a descriptor opened read-only can write.

Parameters stand for what lies outside: the boot loader's memory map, the address of
`return_to_ring3`, the packed cursor and desktop colours, the bytes the mouse delivers, and in the file
system and the loader the answers of `kmalloc`.

## Model

| member | source | states |
|---|---|---|
| PageRuns.LowestRun | mm/pmm.c:96-119 | The first run the scan can return: -1 exactly if the window has no free run of that length, otherwise a free run inside the window with no free run below it. |
| PageRuns.RunWithinFreeCount | mm/pmm.c:97 | The shortcut `count > free_pages` never hides a run: a free run of n pages means at least n free pages. |
| PageRuns.ScanPastFree | mm/pmm.c:102-114 | One free page in the contiguous scan: the counted pages are a free run, no earlier run of the wanted length exists, and the scan state is kept. |
| PageRuns.ScanPastUsed | mm/pmm.c:114-116 | One used page: resetting the counter loses no run. |
| PageRuns.MarkTakesFree | mm/pmm.c:108-111 | Marking a free run takes exactly its length off the free count. |
| PageRuns.Conservation | mm/pmm.c:84-163 | Over any run of requests, pages handed out plus free pages is constant. |
| PageRuns.GrantWasFree | mm/pmm.c:84-158 | Every range ever handed out was free at the start and lies on its own side of the 0x800000 boundary. |
| PageRuns.NoDoubleAllocation | mm/pmm.c:84-158 | All ranges handed out by any run of requests are pairwise disjoint. |
| PageRuns.UsedExactly | mm/pmm.c:84-158 | After any run a page is used exactly if it was used before or has been handed out. |
| PageRuns.RefusedExactly | mm/pmm.c:84-158 | Each of the four entry points is refused exactly if its side of address 0x800000 has no free run of the length, and is answered with the lowest one otherwise. |
| Pmm.Allocator.constructor | mm/pmm.c:21-80 | The bitmap starts at the first page boundary from the kernel end on, and first_free is the first one behind its (total_pages + 7) / 8 bytes; after `pmm_init` a page is free exactly if a usable region holds it and it lies at or above first_free; the free count is the number of clear bits. |
| Pmm.FirstRequest | mm/pmm.c:21-158 | The first request after `pmm_init` is refused exactly if no usable run of the length lies above the bitmap on its side of 0x800000; a kernel page exactly if there is no usable page from first_free to 0x800000. |
| Pmm.GrantsAvoidKernel | mm/pmm.c:21-80 | Nothing handed out after `pmm_init` touches the kernel image or the bitmap, and all of it is usable memory. |
| Pmm.Allocator.FreeRegion | mm/pmm.c:62-76 | One region of the memory map: exactly its pages above the bitmap become free. |
| Pmm.Allocator.ScanRun | mm/pmm.c:96-119 | The scan returns the lowest free run of its window and marks exactly that run, or returns 0 and marks nothing because there is none. |
| Pmm.Allocator.ScanPage | mm/pmm.c:84-94 | The same for single pages. |
| Pmm.Allocator.AllocPage | mm/pmm.c:84-94 | The kernel-region window for one page. |
| Pmm.Allocator.AllocContiguousPages | mm/pmm.c:96-119 | The kernel-region window for a run. |
| Pmm.Allocator.AllocUserPage | mm/pmm.c:123-133 | The user-region window for one page. |
| Pmm.Allocator.AllocContiguousUserPages | mm/pmm.c:135-158 | The user-region window for a run. |
| Pmm.Allocator.FreePageCount | mm/pmm.c:160-163 | The stored counter equals the number of clear bits. |
| PageTables.OpenShared | arch/x86/paging.c:341-375 | Marking the first page of a shared table: the private copy differs from the kernel table in that one entry, and only the directory entry of the task is redirected. |
| PageTables.OpenPrivate | arch/x86/paging.c:360-375 | Marking a further page of a private table changes one entry. |
| AddressSpaces.KernelWalk | arch/x86/paging.c:39-99 | The kernel directory maps pages only to themselves and never for user mode. |
| AddressSpaces.Isolation | arch/x86/paging.c:305-376 | In a task's directory exactly its own pages are open to user mode, each mapped to itself; every other page translates as in the kernel directory. |
| AddressSpaces.SharedIffUntouched | arch/x86/paging.c:337-341 | The test whether a table is still shared is true exactly if no page in it was marked before. |
| AddressSpaces.CloneKeepsInv | arch/x86/paging.c:305-325 | A cloned directory in a fresh frame keeps the isolation invariant. |
| AddressSpaces.MarkKeepsInv | arch/x86/paging.c:329-376 | Marking keeps it, for shared and for private tables. |
| AddressSpaces.StepKeepsInv | sched/task.c:184-222 | Every step keeps it: any page allocation, clones, marks, kernel data stores outside page tables, and user-mode stores. |
| AddressSpaces.UserStoreConfined | arch/x86/paging.c:329-376 | A user-mode store that does not fault hits one of the task's own pages, hence no page table. |
| AddressSpaces.RunGives | sched/task.c:218-222 | After any run a task's pages are those it had plus those marked for it. |
| AddressSpaces.IsolationOverRuns | sched/task.c:184-222 | Isolation over every run of allocations, creations and stores: a page is open to a task exactly if it was marked for it, is then mapped to itself and lies at or above 0x800000; everything else is the kernel's supervisor mapping or faults. |
| AddressSpaces.TasksCannotInterfere | arch/x86/paging.c:305-376 | A user store of one task changes no page that is not among its own pages and no task's translations; pages that two tasks both hold are the subject of the Sharing rows. |
| Paging.Mmu.Init | arch/x86/paging.c:39-99 | `paging_init` builds exactly the supervisor identity mapping of the memory, and the invariant holds. |
| Paging.BuiltIsIdentity | arch/x86/paging.c:62-93 | Tables filled block by block are the identity mapping as the hardware reads it. |
| Paging.Mmu.UnmapNullPage | arch/x86/paging.c:183-196 | Page 0 faults afterwards, every other translation is unchanged. |
| Paging.Mmu.MapPhysRange | arch/x86/paging.c:105-143 | Exactly the pages that meet the range become identity-mapped for the supervisor; all other translations stay, and the invariant holds, also where new tables are needed. |
| Paging.Mmu.EnsureTable | arch/x86/paging.c:112-132 | A missing page table is added without changing any translation. |
| Paging.KernelTableAdd | arch/x86/paging.c:117-130 | An empty table in a fresh frame changes no translation and keeps the invariant. |
| Paging.KernelPageSupply | mm/pmm.c:84-94 | The kernel-region allocator succeeds exactly while a page of that region is free, and takes one. |
| Paging.KernelRunTakes | mm/pmm.c:96-119 | A granted run of the kernel region takes exactly its length off the free pages of that region. |
| Paging.RegionsApart | mm/pmm.c:84-158 | Requests for user pages leave the kernel region as it is, and requests for kernel pages leave the answer to a request for a user page as it is. |
| Paging.MarkSupply | arch/x86/paging.c:337-350 | A marking takes one frame exactly for the first page of a table, and fails exactly if there is none then. |
| Paging.Mmu.CloneKernelPd | arch/x86/paging.c:305-325 | The method performs exactly the clone step; 0 exactly if no frame is free. |
| Paging.Mmu.SetUserAccessibleForTask | arch/x86/paging.c:329-376 | The method performs exactly the marking step; it fails exactly if the private table gets no frame (the unchecked null result at line 342 then faults). |
| Paging.Mmu.PageIsUserAccessible | arch/x86/paging.c:158-180 | The software walk answers exactly what the hardware walk of the same directory answers. |
| Paging.Mmu.MarkAll | sched/task.c:218-221 | The marking loop comes to its end exactly if the page tables of the listed pages that the task has not got yet are no more than the free kernel pages, takes exactly that many, and opens exactly the listed pages. |
| Paging.Mmu.AllocateTask | sched/task.c:188-216 | The allocations of a creation: no kernel stack exactly if no two free kernel pages lie in a row; else no directory exactly if fewer than three kernel pages are free; else no user stack exactly if one is wanted and no user page is free; with what each outcome leaves behind. |
| Paging.Mmu.MarkTask | sched/task.c:218-222 | Both marking loops: they end exactly if there are frames for the tables of all listed pages and the stack page. |
| Paging.Mmu.CreateUserTask | sched/task.c:184-237 | Each outcome exactly, by the page bitmap before the call: the three refusals, the fault exactly if fewer kernel pages are free than three and the tables of the marked pages, and success otherwise. On success the new space is open at exactly the listed pages plus the stack page, stacks come from pages that were free, and the ten words of the initial frame are in place. |
| Sharing.OnePageTwice | kernel/main.c:249-272 | `run_exec` lists one registered page for every task it starts: two such tasks both hold the page, and what one stores there the other reads. |
| Sharing.SharedExactlyAsListed | sched/task.c:184-222 | Over every run of registrations, creations, allocations and stores, two tasks share exactly the pages that were listed for both; every other page, in particular stacks and images granted for one creation, belongs to one task. |
| Sharing.CreateOk | sched/task.c:184-222 | One creation keeps that invariant, with its pages drawn from the registered ones and from grants of its own. |
| Sharing.NextOk | kernel/main.c:232-247 | So does every event, registrations included; the run theorem is by induction over it. |
| Sharing.NobodyYet | kernel/main.c:232-247 | The invariant holds before the first task. |
| Sharing.MarkPagesOk | sched/task.c:218-221 | The marking loop adds exactly the listed pages to the one space. |
| HeapState.InsertOk | mm/kheap.c:35-42 | `fl_insert` keeps the tiling, the double links and the flags. |
| HeapState.RemoveOk | mm/kheap.c:44-51 | `fl_remove` keeps them, from any position of the list. |
| HeapState.SplitOk | mm/kheap.c:181-201 | A split keeps them; the rest takes the block's place in the list. |
| HeapState.AbsorbOk | mm/kheap.c:66-77 | Merging with the next block keeps them. |
| HeapState.GrowOk | mm/kheap.c:110-131 | New pages become one free block and keep them. |
| HeapState.CarveOk | mm/kheap.c:176-204 | Taking a block from the list, split or whole, keeps the heap well formed. |
| HeapRuns.MallocOk | mm/kheap.c:168-206 | The answer to a request is a new live 8-aligned block of the needed size, disjoint from every live block, and those keep their contents. |
| HeapRuns.NeededHoldsRequest | mm/kheap.c:170-173 | The rounded size holds the request exactly for requests up to 2^32 - 16 bytes, and is then less than 8 bytes larger than needed, or the least block. |
| HeapRuns.MallocExactly | mm/kheap.c:168-206 | An allocation takes the first listed block that is big enough: if the rest can be a block it takes the place of the block in the list, otherwise the whole block is handed out. |
| HeapRuns.ReleaseOk | mm/kheap.c:208-231 | `kfree` under its exact condition keeps the heap well formed, and the freed bytes belong to one listed free block, merged with either neighbour. |
| HeapRuns.ReleaseExactly | mm/kheap.c:66-231 | `kfree` joins the freed block with the free block behind it in the same page and with the free block in front of it, and with nothing else; the result keeps the place of the front block in the list, or becomes the head. |
| HeapRuns.ReleaseKeepsLive | mm/kheap.c:208-231 | `kfree` leaves every other live block where it is, with the same words. |
| HeapRuns.CarveKeepsLive | mm/kheap.c:176-204 | So does an allocation. |
| HeapRuns.GrowKeepsLive | mm/kheap.c:110-131 | So does growing the heap. |
| HeapRuns.EveryByteInOneBlock | mm/kheap.c:110-131 | Every byte of the heap's pages belongs to exactly one block. |
| HeapRuns.SizesAddUp | mm/kheap.c:66-131 | The block sizes of a span add up to its pages. |
| Kheap.TotalIsPages | mm/kheap.c:110-131 | The block sizes over all spans add up to the pages recorded for them. |
| Kheap.KernelHeap.BlocksFillPages | mm/kheap.c:55-56 | All blocks together fill exactly `heap_page_count` pages, at any time. |
| HeapRuns.BackwardWalkSound | mm/kheap.c:84-102 | The backward walk finds the predecessor whatever clients left in memory, exactly if the block's page starts on a block boundary. |
| HeapRuns.WalkMisled | mm/kheap.c:84-102 | If it does not, some contents of the same heap mislead the walk. |
| HeapRuns.SecondBlockNotFreeable | mm/kheap.c:135-166 | The page condition is not automatic, against the promise at mm/kheap.h:8-12: kmalloc(5000); kmalloc(16) on the initial heap gives a block that violates it. |
| FreeSoundness.FreeSoundExactly | mm/kheap.c:208-231 | `kfree` of a live block terminates and leaves a well-formed heap, for all contents of the memory, exactly if its page starts with a block or with the link word of a list head that has a successor, after the forward merge. |
| FreeSoundness.CanFreeExactly | mm/kheap.c:208-231 | That condition on the heap before the call, as a caller can check it: blocks, list and the block behind. |
| FreeSoundness.LostIsNoHeap | mm/kheap.c:84-102 | A walk that takes contents for a free block leaves a block that is marked free and that no list can contain: no tiling and no list make the memory a heap again. |
| FreeSoundness.BrokenIsNoHeap | mm/kheap.c:84-102 | A walk that takes another link word for a size corrupts the list: no tiling and no free list fit the memory afterwards. |
| FreeSoundness.StartsUnique | mm/kheap.c:66-102 | The pages and the size words determine the blocks. |
| FreeSoundness.NeverEnds | mm/kheap.c:91-94 | With a stale 0 at the start of the page the walk, and so `kfree`, never ends. |
| FreeSoundness.SameMerge | mm/kheap.c:66-77 | The condition does not depend on what clients left in memory. |
| FreeSoundness.SecondBlockUnsound | mm/kheap.c:135-166 | kmalloc(5000); kmalloc(16) on the initial heap gives a block that violates the condition. |
| FreeSoundness.FiveBlocksReached | mm/kheap.c:168-206 | kmalloc(4080) and three times kmalloc(16) on the initial heap: where the five blocks lie. |
| FreeSoundness.LinkAtPageReached | mm/kheap.c:208-231 | There, freeing the second block makes the third freeable although its page does not start with a block. |
| SelfCheck.Tests1And2Run | kernel/main.c:80-109 | Tests 1 and 2 of `heap_tests` on a fresh heap: blocks and list afterwards. |
| SelfCheck.Test3Run | kernel/main.c:111-124 | Test 3: the freed block is found again. |
| SelfCheck.Test4Run | kernel/main.c:126-156 | Test 4: forward merging, and one free block again at the end. |
| SelfCheck.Test5Run | kernel/main.c:158-182 | Test 5: backward merging, likewise. |
| SelfCheck.TenBlocks | kernel/main.c:184-202 | Test 6 up to the tenth block: their places, and the fill at the start of the ninth block's page. |
| SelfCheck.FreeNext | kernel/main.c:210-211 | The frees of the first eight blocks are sound and make one free block of them. |
| SelfCheck.NinthNotFreeable | kernel/main.c:210-211 | The ninth block violates the condition of `kfree`. |
| SelfCheck.NinthBreaksHeap | kernel/main.c:210-211 | With the fill of the eighth block there, its `kfree` ends and leaves memory that is no heap. |
| SelfCheck.SelfCheckBreaksHeap | kernel/main.c:76-217 | So `heap_tests` breaks the heap on every boot on which its allocations succeed, whatever follows the tenth block of test 6. |
| HeapRuns.MallocFromSingle | mm/kheap.c:176-204 | A request that cuts the only free block: where the new block and the rest lie. |
| HeapRuns.StepOk | mm/kheap.c:110-231 | Every step of a run (allocate, free, grow, client stores into payloads) keeps the heap well formed. |
| HeapRuns.RunKeepsLive | mm/kheap.c:168-231 | Over any run a word of a live payload changes only by its owner's stores. |
| Kheap.KernelHeap.FlInsert | mm/kheap.c:35-42 | The stores in memory are exactly the insertion. |
| Kheap.KernelHeap.FlRemove | mm/kheap.c:44-51 | The stores in memory are exactly the removal, at any position. |
| Kheap.KernelHeap.CoalesceForward | mm/kheap.c:66-77 | The stores are exactly the forward merge, or none. |
| Kheap.KernelHeap.CoalesceBackward | mm/kheap.c:84-102 | True exactly when the predecessor absorbed the block. |
| Kheap.KernelHeap.FindPrev | mm/kheap.c:86-94 | The walk from the page start ends at the block before, or after one round where the page starts with a link. |
| Kheap.KernelHeap.HeapExpand | mm/kheap.c:110-131 | The heap grows by the lowest four free pages in a row, or nothing changes; exactly when it can. |
| Kheap.KernelHeap.Search | mm/kheap.c:176-205 | The search stops at the first fit. |
| Kheap.KernelHeap.CutBlock | mm/kheap.c:181-201 | The stores in memory are exactly the split. |
| Kheap.KernelHeap.Kmalloc | mm/kheap.c:168-206 | Expansions followed by one allocation, payload at block + 8. Every expansion was forced: before it no free block fitted; a request that fits expands nothing. Each one takes the next four pages, and `heap_page_count` and the page bitmap change by exactly that. 0 only if the heap can neither serve the request nor grow. |
| Kheap.KernelHeap.Kfree | mm/kheap.c:208-231 | A null pointer or a free block changes nothing; a live block that meets the exact condition of `kfree` is released. |
| Kheap.KernelHeap.Init | mm/kheap.c:135-166 | The lowest sixteen free pages in a row become one free block; the heap stays empty if they cannot be had. |
| Switching.BootOk | sched/task.c:22-37 | The boot state satisfies the invariant. |
| Switching.YieldKeepsInv | sched/task.c:273-296 | A yield keeps the ring, the states, the disjoint stacks, every suspended context, and CR3 and TSS.esp0 of the current task. |
| Switching.YieldResumes | sched/switch.asm:21-53 | The next task continues with exactly the registers it was suspended with. |
| Switching.YieldCurrent | sched/switch.asm:36-45 | After a switch CR3 and TSS.esp0 are the next task's, each unless its field is 0. |
| Switching.CreateKeepsInv | sched/task.c:224-249 | A creation keeps the invariant; the new task is suspended in front of its first run. |
| Switching.QuietKeepsInv | sched/task.c:273-296 | Whatever the running task does to its registers, its own stack and other memory keeps the invariant. |
| Switching.ContextPreserved | sched/switch.asm:21-53 | Over any run of the scheduler whose creations get memory of their own (`MachineRuns.ContextPreserved` derives that), a task that yielded and is switched to again gets back ebx, esi, edi, ebp, its stack pointer and its return address. |
| Switching.FirstRun | sched/task.c:224-236 | Over any such run of the scheduler, a task's first switch reaches `return_to_ring3` with esp 20 below the kernel stack top and entry, 0x1B, 0x202, user stack, 0x23 next on the stack. |
| Switching.OneCycle | sched/task.c:247-249 | The ring is one cycle through every task once, with exactly one task RUNNING. |
| Switching.StepDistance | sched/task.c:281-285 | Each yield brings a waiting task one place nearer, each creation puts one before it. |
| Switching.WaitingTime | sched/task.c:281-295 | A task at distance d runs after exactly d plus the creations in between yields, and not before. |
| Tasks.Scheduler.SwitchTo | sched/switch.asm:21-53 | The instructions, pushes and pops on stack memory, have exactly the effect of a switch; CR3 is skipped for 0. |
| Tasks.Scheduler.CallSwitch | sched/task.c:281-295 | States, TSS, arguments and return address up to the call. |
| Tasks.Scheduler.TaskYield | sched/task.c:273-296 | `task_yield` in memory is exactly the yield step, from any reachable state. |
| Tasks.Scheduler.TaskInit | sched/task.c:22-37 | `task_init` reaches the boot state. |
| Tasks.Scheduler.CreateTask | sched/task.c:224-249 | The stores of a creation are exactly the creation step. |
| UserCopy.IsUserAccessibleRange | arch/x86/paging.c:199-216 | Terminates for all ranges; answers yes exactly for empty ranges and for accessible ranges that end at or below 0xFFFFF000. |
| UserCopy.CopyFromUser | arch/x86/paging.c:219-231 | Copies exactly the range, or returns the error and copies nothing; reads only accessible pages. |
| UserCopy.CopyToUser | arch/x86/paging.c:234-246 | The same towards the user; no inaccessible page is written. |
| UserCopy.CarefulStringOk | arch/x86/paging.c:251-276 | The version that checks every byte succeeds exactly if a NUL comes before max_len with every page up to it accessible, and yields that string. |
| UserCopy.CopyFromUserString | arch/x86/paging.c:251-276 | Checking only on page changes gives the result of checking every byte, and reads no byte of an unchecked page. |
| Kernel.CheckerAgrees | arch/x86/paging.c:158-180 | The software check agrees with the hardware on every page exactly if the current task has its own directory or the directory still loaded opens no page. |
| Kernel.NoLowPages | arch/x86/paging.c:305-376 | No page below 0x800000 is open to user mode for any running task, by the checker or the hardware; page 0 in particular. |
| Kernel.AccessibleIs | arch/x86/paging.c:158-216 | The check of the copy functions is the walk of the current task's directory, and page 0 is closed to it, as they need. |
| Kernel.CopiesReachOwnPages | arch/x86/paging.c:199-276 | A range passes that check exactly if the current task holds all its pages; without a directory of its own no byte passes. |
| Kernel.ScheduleOk | sched/task.c:184-296 | Control blocks keep naming page directories that exist, and CR3 holds one of them, over creations and yields. |
| Kernel.StackGranted | sched/task.c:188-194 | The two stack pages that `pmm_alloc_contiguous_pages(2)` grants meet no task's stack and no heap page. |
| Kernel.AllocationsKeep | sched/task.c:196-222 | Later allocations, heap growth included, meet no task's stack and no control block. |
| Kernel.StackStaysReady | sched/task.c:188-222 | Nor do they meet the stack that is waiting for its task. |
| Kernel.AllocationsSuffice | sched/task.c:238-249 | With that stack and a block from `kmalloc` that holds no control block the premise of the creation step holds; `MachineRuns.NewTcb` and `Machines.CreationSafe` derive the rest over runs. |
| OneMemory.SyncKeepsInv | arch/x86/paging.c:39-99 | Stores by address that miss the page tables keep every translation; both views of memory stay equal. |
| OneMemory.MarkOnlyTables | arch/x86/paging.c:329-376 | Marking writes page tables only, and a new table lies in a frame that was free. |
| OneMemory.CloneOnlyTables | arch/x86/paging.c:305-325 | So does cloning. |
| Machines.StoredSound | sched/task.c:273-296 | The running task's stores keep the invariant of the whole kernel as long as they miss the heap's structure, page tables, control block fields and other tasks' stacks. |
| Machines.RemappedSound | arch/x86/paging.c:305-376 | Cloning and marking keep it: page tables meet neither heap nor stacks nor control blocks, because they come from free frames. |
| Machines.HeapSound | mm/kheap.c:168-231 | `kmalloc` and `kfree` keep it: they write no page table, no stack and no word of a control block. |
| Machines.ExpandedSound | mm/kheap.c:110-131 | Heap growth keeps it; the new pages are apart from all stacks and tables. |
| Machines.TakeStackSound | sched/task.c:188-194 | The new kernel stack meets no stack, no heap page and no page table. |
| Machines.YieldSound | sched/task.c:273-296 | A yield writes only its own stack and control blocks, so heap and page tables stay. |
| Machines.CreationSafe | sched/task.c:224-249 | The premise of the creation step, memory that nobody else has, follows from the allocators: in every reachable state in which stack and block were handed out. |
| Machines.FinishSound | sched/task.c:224-249 | Completing a creation keeps the invariant. |
| BootRuns.EarlyStepOk | kernel/main.c:492-800 | Every step of the boot path before the first task (page allocations, heap growth, `kmalloc` and `kfree`, mapping, stores) keeps page tables, heap and boot stack apart in one memory. |
| BootRuns.BootSound | sched/task.c:22-37 | Whatever the boot path has been, with any number of heap pages and blocks, the invariant of the whole kernel holds when `task_init` is done; of disjointness only the boot stack's place at the start is assumed. |
| BootRuns.KmainBoots | kernel/main.c:497-802 | The allocations of kmain without its self-check are such a path whenever the heap gets its first pages, and leave blocks for the idle task and the next one. |
| MachineRuns.NewTcb | sched/task.c:238 | `kmalloc(sizeof(task_t))` never returns a control block that is in use. |
| MachineRuns.StepSound | sched/task.c:184-296 | Every step of the kernel keeps the invariant: one memory, with heap, stacks, control blocks and page tables pairwise disjoint. |
| MachineRuns.RunProjects | sched/task.c:184-296 | Every run of the kernel is a run of the scheduler whose creations are all enabled, yields and creations one for one. |
| MachineRuns.ContextPreserved | sched/switch.asm:21-53 | Over any run of allocations, heap operations, markings, stores, creations and yields, a task that is switched to again gets back its registers, stack pointer and return address. |
| MachineRuns.FirstRun | sched/task.c:224-236 | Over any such run a task's first switch reaches `return_to_ring3` with the frame for `iret` on its stack. |
| MachineRuns.WaitingTime | sched/task.c:281-295 | Over any such run a task runs after exactly its distance plus the creations in between yields. |
| MachineRuns.IsolationOverRuns | arch/x86/paging.c:305-376 | Over any such run a page is open to a task exactly if it was marked for it. |
| MachineRuns.AgreementOverRuns | sched/switch.asm:36-45 | After any such run CR3 and TSS.esp0 are the current task's (unless 0), and with a directory of its own checker and hardware agree on every page. |
| MachineRuns.StaleDirectory | sched/switch.asm:36-45 | Where they disagree: one task is created, the idle task yields to it and gets the processor back, and user mode is still open to the other task's page while the check denies it. |
| BootRuns.StaleDirectoryReached | sched/switch.asm:36-45 | That state is reached from any boot path with memory for one task: stack, directory, mark, control block, creation and two yields. |
| LinePath.ErrOk | gfx/primitives.c:72-109 | The error term is the exact distance from the ideal line and stays inside [0, extent). |
| LinePath.WithinHalf | gfx/primitives.c:83-108 | Bresenham's bound: twice the distance of m*a from k*b is at most a. |
| LinePath.PathNearLine | gfx/primitives.c:72-109 | Every plotted point is within half a pixel of the ideal line, shallow or steep. |
| LinePath.PathEnds | gfx/primitives.c:90-91 | The path starts at the first and ends exactly at the second point. |
| LinePath.PathInBox | gfx/primitives.c:72-109 | It never leaves the rectangle of its end points. |
| Pixels.OnScreenLineIsComplete | gfx/primitives.c:86-91 | With both end points on the screen the whole path is drawn, the last pixel included. |
| Pixels.FourSidesAreTheBorder | gfx/primitives.c:113-123 | An on-screen hollow rectangle paints exactly its border, row y+h and column x+w included. |
| Pixels.FourSidesInBox | gfx/primitives.c:113-123 | Wherever the screen ends, nothing outside the rectangle is painted. |
| Pixels.NoOverflowExactly | gfx/primitives.c:75-78 | What `draw_line` demands: exactly that dx, adx, dy and ady fit an int32_t; a line from column 0 to column 0x80000000 does not. |
| Pixels.KeptBits | gfx/primitives.c:29-43 | A pixel keeps as many low bits of the colour as the mode has bits per pixel. |
| Pixels.Screen.PutPixel | gfx/primitives.c:21-44 | One pixel, in the depth's bits, if it is on the screen. |
| Pixels.Screen.GetPixel | gfx/primitives.c:48-68 | The stored pixel, or 0 off the screen. |
| Pixels.Screen.DrawLine | gfx/primitives.c:72-109 | Ends, computes within `int32_t`, and paints exactly the path up to its end or the first point off the screen. |
| Pixels.Screen.DrawRect | gfx/primitives.c:113-123 | Paints exactly the four lines. |
| Pixels.Screen.FillRect | gfx/primitives.c:127-162 | Paints exactly the clipped rectangle; nothing if its far edge wraps. |
| Cursor.CursorShape | drivers/mouse.c:97-107 | On the screen the drawn cursor fills exactly the 12 by 20 saved cells, white with a black frame. |
| Cursor.CursorStaysInside | drivers/mouse.c:97-107 | On any screen drawing the cursor changes only its own cells. |
| Cursor.RestoreOne | drivers/mouse.c:88-92 | Writing back one saved cell gives that pixel back. |
| Cursor.StartsOnScreen | drivers/mouse.c:290-291 | The initial cursor is on the screen exactly if the screen is at least 23 by 39. |
| Cursor.StaysOnScreen | drivers/mouse.c:167-176 | Over any byte stream an on-screen cursor stays on the screen. |
| Cursor.PacketMoves | drivers/mouse.c:119-208 | The first packet leaves the cursor where it is and is not the first again; any other moves it by its two signed deltas, clamped; a byte that cannot start a packet is skipped. |
| Cursor.PacketsLead | drivers/mouse.c:119-208 | Over every run of packets the cursor follows each of them but the very first. |
| Cursor.SecondPacketMoves | drivers/mouse.c:122-184 | From the start: of two packets the first is thrown away and the second moves the cursor. |
| Cursor.ClampNearest | drivers/mouse.c:168-176 | Clamping picks the nearest allowed coordinate. |
| Cursor.Mouse.constructor | drivers/mouse.c:290-295 | The cursor is drawn over the image it found. |
| Cursor.Mouse.CursorSave | drivers/mouse.c:76-82 | The backup holds what `get_pixel` sees under the cursor. |
| Cursor.Mouse.CursorRestore | drivers/mouse.c:84-95 | Erasing gives back the original image exactly. |
| Cursor.Mouse.CursorDraw | drivers/mouse.c:97-112 | Afterwards erasing would give back the present image. |
| Cursor.Mouse.ProcessPacket | drivers/mouse.c:119-184 | A packet moves the cursor over the same image. |
| Cursor.Mouse.HandleInterrupt | drivers/mouse.c:188-208 | Whatever byte arrives, erasing still gives back the same image, and the cursor stays drawn, at the new position. |
| Cursor.Mouse.HandleAll | drivers/mouse.c:188-208 | The same for every stream of bytes. |
| Cursor.Mouse.Hide | drivers/mouse.c:306 | The original image, exactly. |
| Damage.ClipExact | wm/wm.c:137-151 | A mark is dropped exactly if nothing of it is visible; what is kept is the visible part exactly if the far edges do not wrap at 2^32. |
| Damage.JoinTight | wm/wm.c:153-174 | Joining keeps the dirty rectangle tight around all marked pixels. |
| Damage.TightIsLeast | wm/wm.c:161-174 | Tight means least among all rectangles that hold the marks. |
| Damage.AlwaysTight | wm/wm.c:135-199 | Over every interleaving of marks and snapshots the dirty rectangle is the least one around the visible marks since the last snapshot. |
| Damage.NeverLost | wm/wm.c:182-199 | Every visible pixel of every mark is in a later snapshot's rectangle or still pending. |
| Damage.WindowInFrame | wm/window.c:5-35 | A window at least 22 by 28 whose title fits (4 + 8 per glyph at most w + 1) paints nothing visible outside the (w+1) by (h+1) frame, button and texts included; the corner pixel needs the +1. |
| Damage.WindowPaints | wm/window.c:5-35 | On the screen such a window paints exactly its frame but for one column and one row inside the right and the lower border. |
| Damage.ButtonInFrame | wm/window.c:21-25 | The close button stays in the frame exactly if the window is at least 22 wide or the button does not show. |
| Damage.TitleInFrame | wm/window.c:16-18 | A one-line title stays in the frame exactly if its cells fit or the rest is off the screen. |
| Damage.CellsOfLine | gfx/font.c:214-244 | A line of text goes over one box, 8 pixels for each printable character. |
| Damage.DragNeverLost | kernel/main.c:403-408 | Every visible pixel that such a window painted at its old or new drag position is flushed later or pending. |
| Damage.FlushExactly | wm/wm.c:201-229 | A flush leaves the right window at a pixel exactly if none belongs there, or that window is repainted, or the pixel is outside the rectangle and no lower window is repainted over it. |
| Damage.BorderErased | wm/wm.c:219-224 | A frame that the rectangle meets is not repainted exactly if it is met only in its last column or row. |
| Damage.BorderStaysErased | wm/wm.c:219-224 | A drag whose flush erases another window's border and leaves it erased. |
| Damage.LowerWindowOnTop | wm/wm.c:216-229 | A flush that draws a lower window over a higher one. |
| Damage.Tracker.MarkDirty | wm/wm.c:135-175 | The code is exactly clip and join. |
| Damage.Tracker.TakeSnapshot | wm/wm.c:188-199 | The section under cli hands over the rectangle and clears it. |
| Damage.Tracker.FlushDesktop | wm/wm.c:201-214 | The flush up to its windows: it repaints exactly the snapshot under the hidden cursor, which stays erasable. |
| Damage.Drag.OnMouseMove | kernel/main.c:374-409 | The window moves within its limits, and both frames are marked. |
| Elf.RangeOk | fs/elf.c:196-214 | The first pass finds the least range that encloses all loadable segments. |
| Elf.Scan | fs/elf.c:196-214 | Pass 1 computes exactly that range. |
| Elf.ImageFits | fs/elf.c:222-258 | The allocated pages hold the whole image, and the wrapping load base shifts every segment into them without wrapping. |
| Elf.ImageCorrect | fs/elf.c:263-286 | With disjoint segments, file bytes up to p_filesz and zeros up to p_memsz (System V gABI, chapter 5). |
| Elf.SegmentReadsBack | fs/elf.c:248-288 | After pass 2 byte k of each segment stands at load_base + p_vaddr + k modulo 2^32, inside the allocated pages. |
| Elf.ProgramReadsBack | fs/elf.c:179-307 | When `elf_load` returns a program, each byte of each segment is read there, in a listed page. |
| Elf.HexdumpLine | fs/elf.c:161-175 | The dump comes to its end exactly if every byte it reads is in a present page. |
| Elf.DumpExactly | fs/elf.c:294 | With memory alone mapped, the dump at load_base is readable exactly for images linked at least a page below their pages, or so high that the load base wraps into memory. |
| Elf.LoadReturnsExactly | fs/elf.c:179-307 | `elf_load` then returns exactly on an error, or for such images if there is memory for the page list; otherwise the machine halts. |
| Elf.TraditionalAddressFaults | fs/elf.c:291-294 | A one-page program linked at 0x08048000 is loaded and then halts the machine, unless its page lies above that address. |
| Elf.HeaderReadsBack | fs/elf.h:7-22 | What the loader reads of the header of any file, e_entry, e_phoff, e_phentsize and e_phnum, are the little-endian fields at their gABI places; the magic test is passed exactly by the six identification bytes. |
| Elf.FileReadsBack | fs/elf.h:7-34 | So are the segments it reads, for any table at any place in the file. |
| Elf.EncodeHolds | fs/elf.h:7-34 | Any header fields and any program headers, with any bytes between, inside and behind the table, make such a file. |
| Elf.ProgramOfFile | fs/elf.c:179-307 | From the header fields of a file to the running program: the entry point is load_base + e_entry modulo 2^32, and each byte of each segment is read where it was linked, relative to the entry point. |
| Elf.OneSegmentOk | fs/elf.c:179-229 | The 84-byte file with one segment is loadable. |
| Elf.OnlyPagesWritten | fs/elf.c:253-288 | Loading writes nothing outside the allocated pages. |
| Elf.PassTwoStaysExactly | fs/elf.c:196-286 | For any file: pass 2 stays in its pages exactly if no segment, by the longer of p_filesz and p_memsz, reaches further above the lowest address than the pages do. |
| Elf.FileLargerThanMemory | fs/elf.c:269-284 | A segment with a p_filesz of two pages and a p_memsz of one byte is written past its page. |
| Elf.AskedAsNeeded | fs/elf.c:196-222 | For proper segments the page count as the code computes it, modulo 2^32, is the one above. |
| Elf.LoadSegment | fs/elf.c:269-284 | Copy loop and zeroing loop of one segment. |
| Elf.CopySegments | fs/elf.c:253-288 | Pass 2 lays out exactly the image, a later segment over an earlier one. |
| Elf.Load | fs/elf.c:179-307 | All outcomes of `elf_load`: the errors, which change nothing, the loaded image with its page list and entry, the halt in the dump after the image was written, and the halt at the unchecked null page list. |
| Elf.LoadGives | fs/elf.c:231-251 | A program that is returned stands in user pages that were free, and the page list names each of them. |
| Elf.StackFits | fs/elf.c:334-351 | The initial stack stays in its page exactly for names of at most 4080 bytes with NUL. |
| Elf.SetupUserStack | fs/elf.c:317-388 | The page holds argc, argv and envp as System V wants them, argv[0] reads back as the name, esp is aligned, nothing else changes; the stack dump halts the machine exactly for names of at most 3 bytes with the next page absent. |
| Elf.StackDumpExactly | fs/elf.c:368-378 | The six words of the dump stay in the page exactly for names of at least 4 bytes; otherwise they need the next page. |
| Elf.ShortNameAtTheTop | fs/elf.c:368-378 | With memory alone mapped that fails exactly for such names in the last page. |
| Elf.CStringUnique | fs/elf.c:321-322 | A NUL-terminated string has one reading. |
| FileModel.SpliceAt | fs/ramfs.c:110-132 | What a write leaves, byte by byte: new bytes, old bytes, zeros in the gap. |
| FileModel.ReadBack | fs/ramfs.c:84-135 | Reading where one has just written gives what was written. |
| FileModel.ReadCountExact | fs/ramfs.c:91-93 | The copied length stays inside the file exactly if offset + size does not wrap, or nothing is left. |
| FileModel.ComponentsOk | fs/vfs.c:31-44 | The components of any path are names of 1 to 63 bytes without a slash, and together all its bytes but the slashes. |
| FileModel.ComponentIs | fs/vfs.c:31-44 | Each component reaches up to the next slash, the end, or 63 bytes. |
| FileModel.LookupAgreesWithCreate | fs/vfs.c:31-44 | Lookup finds what create stored exactly for names of at most 63 bytes. |
| FileModel.OpenOk | fs/vfs.c:68-136 | Open keeps names distinct, also when allocations fail; if it succeeds it takes a free descriptor at offset 0, and the path leads to the opened node. |
| FileModel.OpensExactly | fs/vfs.c:68-136 | When it succeeds: exactly if a descriptor is free, the path leads to a node or is a new "/name" with memory for the node, and there is memory for the open file; the answer is the least free descriptor. |
| FileModel.OpenChanges | fs/vfs.c:68-136 | What it changes: a missing file appears, empty, exactly if it can be created and a descriptor is free, and at most the one descriptor is set. |
| FileModel.ClosesExactly | fs/vfs.c:169-184 | Close frees an open descriptor and only that; anything else is an error and changes nothing. |
| FileModel.DuplicateExactly | fs/vfs.c:86-117 | A failed allocation in the lookup reads as a missing file; a second file of that name would be created exactly if the allocations for it then succeeded. |
| Kheap.RefusedAgain | mm/kheap.c:168-206 | They do not: a size that `kmalloc` refused is refused again after any other allocation. |
| FileModel.StepOk | fs/vfs.c:68-184 | One operation changes only bytes it writes and only its own task's descriptors. |
| FileModel.RunOk | fs/vfs.c:68-184 | Over any run by any tasks names stay distinct, identities stay, unwritten files keep their bytes. |
| FileModel.PathStable | fs/vfs.c:48-63 | A path that leads somewhere leads there after every later run. |
| FileModel.WriteFailsExactly | fs/ramfs.c:102-135 | A write answers -1 and changes nothing exactly on what is no open file, or if it makes the file longer and there is no memory; otherwise it answers the number of bytes. |
| FileModel.WriteIsSplice | fs/vfs.c:154-166 | A write that does not fail is a splice in the map from names to bytes at the descriptor's offset, which moves on by the bytes written; all other names and descriptors stay. |
| FileModel.ReadIsSlice | fs/vfs.c:139-151 | A read is a slice of that map, and fails exactly on what is no open file. |
| FileModel.ChunksAreOneWrite | fs/vfs.c:154-166 | Writing in chunks, with any answers of `kmalloc`, is writing once what the chunks that did not fail hold together, all of it if there was memory. |
| FileModel.ChunksAreOneRead | fs/vfs.c:139-151 | Reading in chunks is reading once. |
| FileModel.RoundTrip | fs/vfs.c:139-166 | What one task writes in any chunks, from any offset into any file, every task reads back in any chunks from that offset, whatever happens in between without a write to that file; chunks whose write failed for lack of memory are missing, and no others. |
| FileModel.ListsEachOnce | fs/ramfs.c:243-264 | Listing the root gives each child exactly once and then fails. |
| RamFs.RamNode.Read | fs/ramfs.c:84-99 | The slice of the content, into the buffer and nowhere else. |
| RamFs.RamNode.Write | fs/ramfs.c:102-135 | The splice of the content, in place or in a larger buffer; without memory for that -1 and no change. |
| RamFs.NamesMatch | fs/ramfs.c:153-161 | The comparison loop decides equality. |
| RamFs.PathNext | fs/vfs.c:31-44 | The next component of the path, cut at 63 bytes, or the end. |
| RamFs.Vfs.LookupChild | fs/ramfs.c:145-188 | The child with that name; null exactly if there is none or no memory for its wrapper. |
| RamFs.Vfs.Lookup | fs/vfs.c:48-63 | The node the path resolves to, or null, also for a child without a wrapper. |
| RamFs.Vfs.Create | fs/ramfs.c:191-240 | The new node is prepended and nothing else changes; without memory for node or wrapper the file system is as before. |
| RamFs.Vfs.Open | fs/vfs.c:68-136 | The linked structure refines the open operation, with all its errors and failed allocations. |
| RamFs.Vfs.Read | fs/vfs.c:139-151 | It refines the read operation. |
| RamFs.Vfs.Write | fs/vfs.c:154-166 | It refines the write operation, its failure for lack of memory included. |
| RamFs.Vfs.Close | fs/vfs.c:169-184 | It refines the close operation. |
| RamFs.Vfs.ReadDir | fs/vfs.c:189-196 | It refines the listing. |
| RamFs.Vfs.constructor | fs/ramfs.c:64-73 | The empty file system. |
| Exec.ReadLoop | kernel/main.c:300-306 | The head of the file arrives in the buffer, and only the descriptor's offset changes. |
| Exec.ReadImage | kernel/main.c:278-316 | Open, read, close: the descriptor table is as before; a missing file is created, stays behind empty and reads as empty. |
| Exec.PageList | kernel/main.c:334-338 | The stack page followed by the image pages; all stores stay inside the 32 entries exactly for images of at most 31 pages. |
| Exec.LargeImage | kernel/main.c:334-338 | A file of 84 bytes that is loaded and has 32 pages. |

## Left out

- `task_create`, `task_create_user` and `paging_set_user_accessible`: the legacy creation paths, which the boot path does not use; the last one would open the kernel's own directory to user mode.
- TLB invalidation, EFLAGS.IF across switches, and ring-3 instructions: the running task may do anything to its registers, its stack and its own pages.
- Interrupts inside sections under `cli`: those sections are atomic steps.
- Serial output (but for the memory that the dumps of fs/elf.c read), PIC, IDT, GDT, PS/2 handshakes, Multiboot tags, `elf_parse_and_print` and the other boot-time self checks: hardware plumbing and diagnostics.
- Tasks.Scheduler.TaskYield: the kernel stack is taken to be deep enough where a task yields (28 bytes left); stack overflow is not modelled.
- Pixels.Screen.PutPixel: the byte layout of a pixel and the pitch are not modelled, only the bits that a depth keeps.
- Pixels.Screen.GetPixel: the same; a pixel is read as the bits that were kept.
- Pixels.Screen.DrawLine: a line that leaves the screen stops there, as in the code; nothing is said about clipping.
- `make_color`, the font's bitmaps, `on_redraw`, changes of the Z-order, the click callback and the calculator: a text is the cells it goes over, and the windows of a flush are a given list.
- Damage.Tracker.FlushDesktop: stops before the windows; which of them are repainted, and where the result is right, is `Damage.FlushExactly`.
- Paging.Mmu.Init: memory above 2^32 - 4 MB and a kernel region too small for the tables, where the code runs on through wrapped addresses or the null frame.
- Paging.Mmu.MapPhysRange: ranges whose rounded end wraps, and a kernel region without a frame for a new table, where the code stores through the null frame.
- Paging.Mmu.EnsureTable: the same null frame.
- Damage.Tracker.MarkDirty: marks whose far edges pass 2^32, which `Damage.ClipExact` shows to be clipped wrongly.
- Cursor.Mouse.ProcessPacket: the button state and the click and move callbacks; the move callback is `Damage.Drag.OnMouseMove`.
- Elf.SetupUserStack: names of more than 4080 bytes with NUL, for which `Elf.StackFits` shows the stack to leave its page; callers pass at most 256.
- RamFs.RamNode.Read: accesses that end at or above 2^32, which `FileModel.ReadCountExact` shows to be cut wrongly; RamFs.Vfs.Read and RamFs.Vfs.Write are limited in the same way.
- RamFs.Vfs.Create: called only for new names of at most 63 bytes; longer ones are the subject of `FileModel.LookupAgreesWithCreate`.
- Exec.ReadImage: paths that create a name of more than 63 bytes.
- RamFs.Vfs.Open: the wrapper nodes that lookups leave behind are not modelled; the answers of `kmalloc` are parameters.
- Elf.Load: the file is a value apart from the loaded memory.
- Exec.PageList: the rest of `exec_elf_from_path` is the calls of `elf_load`, `elf_setup_user_stack` and task creation, each modelled on its own.
- BootRuns.BootSound: not for a boot on which `heap_tests` has broken the heap (`SelfCheck.SelfCheckBreaksHeap`), after which no invariant of the heap is left to state.
- Tasks.Scheduler.CreateTask: takes its stack, directory and control block from its caller; `Machines.CreationSafe` and `Paging.Mmu.CreateUserTask` say where they come from.
- Deleting files, directories below the root and seeking: the repository has none.
- The shell, the other user programs and the syscall dispatcher: thin callers of what is modelled.
