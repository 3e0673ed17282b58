# Bric OS kernel services

A model, in Dafny, of the stateful parts of the Bric OS kernel, with proofs of what they promise over whole runs.

- **Kernel heap** (`kmalloc.c`). `Blocks`, `HeapSpec` and `ReallocSpec` say on values what the calls do to the list of
  blocks; `HeapTheorems`, `ReallocSpec` and `ReallocContents` prove what that means for the heap's users, and
  `ReallocSizes` says in block sizes alone when `krealloc` keeps its promise. `HeapExact` says in arithmetic when each
  call succeeds and how large its block is. `Memory` is byte-addressed memory in which headers are spelled out field by
  field, so that a header written over another one or over a payload leaves the bytes it leaves; `HeapBytes` says which
  bytes the writes can reach, `HeapChain` is the doubly linked list in such memory, and `MovedBytes` follows each byte
  through a `krealloc` that works on a swallowed block. The class `KernelHeap` has the source's loops and pointer
  updates, method by method, proved against the value functions and against the bytes of every live payload. `HeapRuns`
  states what holds over runs of any length, and `HeapCalls` shows that the class takes exactly those steps.
- **Paging** (`mmu_driver.c`). `FrameSupply` is the list of physical ranges, `PageTable` the four-level tree in physical
  memory (section 4.5 of the Intel SDM, volume 3A) and the flat map it stands for, the class `Mmu` the allocator, the
  tables built on demand and the pages that get a frame on their first fault. The driver reads and writes frames at their
  own addresses: `Reached` says where the tables in force, those of the boot code and then its own, let it. A halt of the
  kernel, and a fault that ends in one, is `ok == false`. `MmuRuns` states what holds over any run of calls and faults.
- **Scheduling** (`ksched.c`, `kproc.c`). `RoundRobin` is the list threaded through the threads, against a queue, with
  the fairness of the queue; `Proc` hands the threads of one scheduler over to another.
- **Serial output** (`serial_io_driver.c`). `Serial` is the 16-byte ring between the writer and the interrupt handler,
  one whole call after the other, for every answer of the hardware. `SerialSteps` executes the same code statement by
  statement, with the handler and its message coming in between any two; `SerialInterrupts` says where that does no harm,
  and `SerialHarm` what becomes of the ring everywhere else.
- **Text output** (`string.c`, `printk.c`, `vga_driver.c`). `CString` has the byte loops, `Numbers` the digits of
  numbers, `Printk` the format string and its buffer, and `PrintkMeaning` what each conversion prints; `Vga` is the 80 by
  25 screen, and `VgaCells` what each character does to its bytes.

Names follow the source where there is a counterpart: `KMalloc` is `kmalloc`, `PfAlloc` is `MMU_pf_alloc`. Where a method
of a class has parameters that the source has not, they are ghost (an index, the block a pointer belongs to) or stand for
the outside world: how far the break may still move, what a status register reads, which interrupts come in.

## Conditions

- The break moves as its documentation says (`Bric_OS/src/drivers/mmu_driver.c:941-944`), and may fail to; it stays within
  4 GiB of the start of the heap, because block sizes are 32-bit.
- A run of heap calls contains a `krealloc` only with a pointer it owns, and only where the call returns a live block and
  does not split it at an unrounded size. `ReallocSpec.ReturnsLiveIff` and `ReallocSizes.AlignedInSizes` say exactly when
  that is, and `ReallocSizes.DeliversInSizes` when the contents come along too.
- The available entries of the memory map start on a page and are neither empty nor overlapping; the first entry is
  available, starts at 0 and reaches past page 1 (`FrameSupply.GapHandedOut` is the case where it is not available); one
  available entry holds the kernel, with room after it; the range records fit in page 1; and available memory ends within
  the 1 TiB that the driver sets aside for it (`Bric_OS/src/drivers/mmu_driver.c:32-33`). Nothing is asked of the other
  entries, and a length need not be a multiple of the page size.
- Callers of the memory manager free pages that are not identity-mapped and frames they hold, and reserve no pages behind
  the end of a region.
- The interrupt handler of the serial port is not interrupted itself, it prints a message that is not empty, and a
  statement of the driver is not divided. Where the handler may come in is not a condition:
  `SerialHarm.RunInOrderIff` and `SerialHarm.InOrderIff` say exactly where it does harm.
- In a hand-over the two schedulers do not share link fields and the current thread is in neither pool; a hand-over to
  the active scheduler is `Proc.TransferToSelf`.
- The arguments of `printk` are of the kinds its format asks for.

## Findings

- When the previous block is free and swallows the old one, `krealloc` can free the block it returns
  (`ReallocSpec.FreesItsResultOnce`), read the length of its copy from a header that `kmalloc` has just written over and
  run past the new block (`ReallocContents.OverrunsOnce`, and exactly when: `ReallocSizes.OverrunsInSizes`), or return
  a live block without the contents, because a new header was written over them before the copy
  (`ReallocContents.ContentsLostOnce`, and exactly when all is well: `ReallocSizes.DeliversInSizes`).
- `krealloc` leaves unaligned headers when it grows a block in place to a size that is not a multiple of 16
  (`ReallocSpec.UnalignedOnce`, and exactly when: `ReallocSizes.AlignedInSizes`).
- `get_empty_mem` extends the heap although a block in the middle would do, if the last block does not fit
  (`HeapTheorems.GrowsDespiteAFit`); its comment says that it extends only when no block fits.
- `kfree` refuses a live last block with a payload under 48 bytes (`HeapTheorems.RefusedIff`).
- The last available frame cannot be allocated: taking it halts (`Mmu.Mmu.AllocNewPf`). `virt_to_phys` halts on every
  address inside a page, so the page offset it adds is always 0 (`Mmu.Mmu.VirtToPhys`).
- `kbrk` and `sbrk` do not move the break by the increment unless it is a multiple of the page size (`Mmu.Mmu.Brk`).
- The check on the record pointer of `addr_map_init` lets one or two records lie behind page 1, in the frame that is then
  handed out first and cleared (`FrameSupply.RecordsBehindPageOnce`, and exactly when: `FrameSupply.RecordBehindPage`).
- A frame counts as available if its first byte is. On the memory map of a PC frame 0x9F000 is handed out although its
  last KiB is reserved (`FrameSupply.PartlyReserved`, and exactly when: `FrameSupply.WholeFrame`).
- The first range is made to start at page 2 wherever it starts. If the memory below it is reserved, that is handed out
  too (`FrameSupply.ReservedHandedOut`, and exactly when: `FrameSupply.GapHandedOut`).
- Once CR3 is loaded, frames from 0x201000 on are not mapped at their own addresses. Freeing a page or a frame there
  halts, and so does making a table of one (`MmuRuns.FreeHighFrame`, `Mmu.Mmu.FreePage`, `Mmu.Mmu.AllocTableEntry`).
- `rr_remove` of a thread that is not in a pool of two or more breaks the list, or takes out another thread
  (`RoundRobin.RoundRobin.Remove`).
- `rr_admit` to a non-empty pool of a thread with a successor link, or of one that is in the pool, breaks the list
  (`RoundRobin.RoundRobin.Admit`); `PROC_run` admits the thread that `rr_next` has left in the pool.
- `PROC_set_scheduler(NULL)` switches schedulers without transferring any thread, against its comment
  (`Proc.Proc.SetScheduler`).
- `PROC_set_scheduler` with the round-robin scheduler, when that is the active one, halts or never comes to an end, unless
  there is no thread (`Proc.TransferToSelf`).
- `IRQ_disable` turns interrupts on and `IRQ_enable` turns them off, and a critical section inside another leaves them on
  for good (`SerialSteps.OnInside`). So the serial handler, which always prints, comes in inside `prod_add` and
  `cons_get`. A transmit interrupt between the read of a byte and its way to the port sends another byte ahead of it
  (`SerialHarm.Overtaken`), at the end of the buffer the low byte of the pointer behind it
  (`SerialHarm.BehindTheBuffer`); and a message that fills the ring while a byte is being stored leaves more counted than
  the ring holds (`SerialHarm.StoreHarm`). Exactly where the handler does harm: `SerialHarm.InOrderIff`, and over whole
  runs `SerialHarm.RunInOrderIff`; it is never made good (`SerialHarm.HarmForGood`).
- After a transmit interrupt the serial port waits for another interrupt before it sends the next byte, because of the
  handler's own message, but for one case (`Serial.StalledByHandler`, `Serial.WithoutInterrupts`).
- Newlines after text that fills its last line are all lost, not only the first (`Vga.NewlinesLost`), and a tab on a tab
  stop does not move (`Vga.TabsStay`).

## Model

| member | source | states |
|---|---|---|
| HeapRuns.RunKeeps | Bric_OS/lib/kmalloc.c:73-458 | after any sequence of kmalloc, kcalloc, kfree and krealloc calls, writes by programs and moves of the limit of the break, in which krealloc returns a live block (ReturnsLiveIff) and splits none at an unrounded size, the blocks tile [heap head, break) exactly, with positive sizes that are multiples of 16 and no two free neighbours, and the sum of size + 32 is what was obtained from the break |
| HeapRuns.StepKeeps | Bric_OS/lib/kmalloc.c:259-458 | each single step keeps that invariant |
| HeapRuns.StepPersists | Bric_OS/lib/kmalloc.c:259-458 | a live block that a call neither frees nor resizes is live after it, at the same place and with the same size |
| HeapRuns.LiveBlockUndisturbed | Bric_OS/lib/kmalloc.c:107-140 | over any run, a block its owner does not free, resize or write to keeps its address, its size and every byte of its payload |
| HeapRuns.EmptyHeap | Bric_OS/lib/kmalloc.c:189-196 | the heap before the first allocation satisfies the invariant |
| HeapCalls.Perform | Bric_OS/lib/kmalloc.c:259-458 | each allowed call of the class takes exactly the step of the run relation, and changes no byte of a payload it is not about: this ties the run theorems to the code |
| HeapTheorems.MallocMeaning | Bric_OS/lib/kmalloc.c:259-293 | kmalloc adds exactly one live block, at least as large as asked for and not live before, or leaves the live blocks as they are; tiling, coalescing and alignment are kept |
| HeapTheorems.MallocApart | Bric_OS/lib/kmalloc.c:107-140 | the block returned shares no byte, header included, with any block that was live |
| HeapExact.MallocExact | Bric_OS/lib/kmalloc.c:189-293 | for every size, in arithmetic: kmalloc fails if and only if the least multiple of 16 that is at least the size, and not 0, does not fit 32 bits, or no free block of the heap has that size and the break cannot move by it, rounded up to 64 KiB, and a header; else the block is 0, 16 or 32 bytes larger than that multiple |
| HeapExact.CallocIsMalloc | Bric_OS/lib/kmalloc.c:295-324 | kcalloc is kmalloc of the product, and fails if a factor does not fit 32 bits |
| HeapExact.CallocMeaning | Bric_OS/lib/kmalloc.c:295-324 | so for every product: exactly when kcalloc fails, and how large its block is |
| HeapExact.RefusedExact | Bric_OS/lib/kmalloc.c:408-447 | a pointer is refused if and only if it is not NULL and lies below the heap or in the last 48 bytes of it, or there is no heap; then, and for NULL, nothing changes |
| HeapTheorems.AllocSlack | Bric_OS/lib/kmalloc.c:189-257 | block size minus the rounded request is 0, 16 or 32, and the pointer is 16-aligned |
| HeapTheorems.AllocFailsIff | Bric_OS/lib/kmalloc.c:226-248 | an allocation fails if and only if no free block is large enough and the break cannot grow |
| HeapTheorems.AllocGrowsIff | Bric_OS/lib/kmalloc.c:202-234 | the heap grows if and only if it can, no free block fits exactly, and the last block is not a free larger one; then the new tail is the block returned |
| HeapTheorems.GrowsDespiteAFit | Bric_OS/lib/kmalloc.c:181-188 | a concrete heap that grows although a free block is large enough, against the comment of get_empty_mem |
| HeapTheorems.MallocNeighbour | Bric_OS/lib/kmalloc.c:107-140 | a free block just below the one handed out can only lie above the old break |
| HeapTheorems.AllocThenFree | Bric_OS/lib/kmalloc.c:408-458 | kmalloc, then an accepted kfree of its result, with no extension, restores the exact block list |
| HeapTheorems.FreeMeaning | Bric_OS/lib/kmalloc.c:408-458 | kfree ends the life of the block that contains the pointer and of no other, keeps tiling, coalescing and alignment, and does nothing when it refuses |
| HeapTheorems.FreeCoalesces | Bric_OS/lib/kmalloc.c:445-452 | freeing any block of a coalesced list, in any surroundings, leaves a coalesced list |
| HeapTheorems.FreeTwice | Bric_OS/lib/kmalloc.c:408-458 | a second kfree of the same pointer changes nothing |
| HeapTheorems.FreeOfFree | Bric_OS/lib/kmalloc.c:445-452 | marking a free block free again and merging leaves the list as it is |
| HeapTheorems.RefusedIff | Bric_OS/lib/kmalloc.c:416-422 | a live pointer is refused if and only if its block is the last one and its payload is under 48 bytes |
| HeapTheorems.FreeAllLeavesOne | Bric_OS/lib/kmalloc.c:408-458 | freeing every live block, in any order and with none refused, leaves one free block that spans the heap |
| HeapTheorems.NothingLive | Bric_OS/lib/kmalloc.c:408-458 | a coalesced heap without live blocks is one free block |
| HeapTheorems.SweepStep | Bric_OS/lib/kmalloc.c:31-42 | a turn of the cleanup sweep is never refused and ends exactly one life |
| HeapSpec.ChooseFacts | Bric_OS/lib/kmalloc.c:189-257 | the search of get_empty_mem, with at most one extension at the tail, ends at a free block that is large enough, in a heap that is still a tiling |
| HeapSpec.GrowFacts | Bric_OS/lib/kmalloc.c:148-179 | extending appends to the tiling and yields a free block of at least the size wanted, right at the old break |
| HeapSpec.CallocExact | Bric_OS/lib/kmalloc.h:60-72 | kcalloc refuses exactly if a factor does not fit 32 bits or the product, rounded up, does not, which covers every product that overflows; else it asks kmalloc for at least the product, and for less than 16 bytes more |
| Blocks.RoundUpIsMask | Bric_OS/lib/kmalloc.h:19-19 | for both rounding units, 16 and 65536, the value of the macro, n - 1 with its low bits set plus one, is the least multiple that is at least n |
| Blocks.TiledDisjoint | Bric_OS/lib/kmalloc.c:107-140 | in a tiling no address lies in two blocks |
| Blocks.TiledTotal | Bric_OS/lib/kmalloc.c:157-160 | in a tiling the block sizes and headers add up to the length of the range |
| Blocks.MergeFirstTiled | Bric_OS/lib/kmalloc.c:73-97 | merging keeps the tiling |
| Blocks.SplitFirstTiled | Bric_OS/lib/kmalloc.c:107-140 | splitting keeps the tiling |
| ReallocSpec.ReturnsLiveIff | Bric_OS/lib/kmalloc.c:326-406 | krealloc returns a live block of at least the new size if and only if memory is found on the moving path, the copy does not overrun the new block or the break, and the old pointer does not lie in the block just handed out, for every heap, block and size |
| ReallocSpec.FreesItsResultOnce | Bric_OS/lib/kmalloc.c:368-392 | a concrete call in which krealloc frees the very block it returns, because the previous block has swallowed the old one |
| ReallocContents.OverrunsOnce | Bric_OS/lib/kmalloc.c:382-392 | a concrete call (4096 bytes in use, 176 free, 64 live at the end, grown to 160) in which the header that kmalloc writes ends in the size field read for the copy: 4128 bytes are copied into a block of 160 |
| ReallocSizes.TakesBackIff | Bric_OS/lib/kmalloc.c:205-246 | when kmalloc takes the very block that has swallowed the old one, read off the sizes in the list before the call: the three blocks together are the first free ones of exactly the rounded size, or larger, with no exact fit elsewhere and nothing free behind them large enough, and either nothing behind them at all or a break that cannot move |
| ReallocSizes.StuckIff | Bric_OS/lib/kmalloc.c:205-246 | when kmalloc finds nothing on the moving path, read off the same list: neither what is merged nor any other free block is large enough, and the break cannot move |
| ReallocSizes.OverrunsInSizes | Bric_OS/lib/kmalloc.c:360-388 | for every heap in order, block and size the copy runs over the new block or the break exactly when kmalloc takes that block back, the free block before it is 16 bytes larger than the rounded request, and the low half of its address is larger than the request or leads past the break |
| ReallocSizes.FreesItsResultInSizes | Bric_OS/lib/kmalloc.c:360-392 | exactly when krealloc frees the block it returns, in the sizes of the list before the call |
| ReallocContents.ContentsLostOnce | Bric_OS/lib/kmalloc.c:382-392 | a concrete call (128 bytes free, 64 live at the end, grown to 160) that returns a live block of the new size with the contents overwritten before they are copied |
| ReallocContents.ContentsKeptIff | Bric_OS/lib/kmalloc.c:360-392 | on the moving path the contents, whatever they are, come along if and only if the size read back covers them and no header that kmalloc writes overlaps them |
| ReallocContents.DeliversIff | Bric_OS/lib/kmalloc.c:326-406 | krealloc does what its documentation promises, a live block of the new size with the contents, if and only if memory is found, the copy does not overrun, the result is not freed, and the contents are neither cut short nor written over |
| ReallocSizes.DeliversInSizes | Bric_OS/lib/kmalloc.c:326-406 | the same for every heap in order, block and size, as a condition on the block sizes and addresses in the list before the call and on how far the break may move: no result of kmalloc is part of it |
| ReallocSpec.UnalignedOnce | Bric_OS/lib/kmalloc.c:375-380 | a concrete call after which a header is no longer 16-aligned |
| MovedBytes.ReadsBack | Bric_OS/lib/kmalloc.c:382-388 | the size that memcpy is called with, byte by byte, is read from the old header as kmalloc has left it |
| MovedBytes.ResultByte | Bric_OS/lib/kmalloc.c:382-395 | each byte of the block returned is traced through the merges, kmalloc, memcpy, kfree and the last split to where it comes from |
| ReallocSpec.SettlesSomewhere | Bric_OS/lib/kmalloc.c:382-395 | where the previous block swallows the block and the copy does not overrun, the header it goes on with is in the list |
| ReallocSpec.ResizedInPlace | Bric_OS/lib/kmalloc.c:353-380 | shrinking and growing in place keep the pointer, replace exactly this block among the live ones, and keep tiling and coalescing |
| ReallocSpec.ResizedByMoving | Bric_OS/lib/kmalloc.c:360-395 | moving, also when the previous block has swallowed the old one, replaces the old block by one of at least the new size among the live ones; only an old block that kfree refuses stays. Calls that overrun or free their own result are the cases of ReturnsLiveIff |
| HeapExact.ReallocTooBigIff | Bric_OS/lib/kmalloc.c:341-349 | krealloc of a block gives NULL if and only if the size is more than 0xFFFFFFF0, and then changes nothing |
| HeapExact.ShrinkExact | Bric_OS/lib/kmalloc.c:353-358 | shrinking leaves exactly the rounded size, or all if fewer than 48 bytes would be cut off; every byte cut off lies in a free block, and the break and the blocks in front are as before |
| HeapExact.GrowExact | Bric_OS/lib/kmalloc.c:360-400 | growing in place leaves exactly the size asked for, not rounded, or all of the block and a free next one if fewer than 48 bytes would be over; what is over is free |
| HeapExact.MoveExact | Bric_OS/lib/kmalloc.c:382-400 | where moving gives a live block, it is 0, 16 or 32 bytes larger than the rounded size |
| ReallocSpec.ReallocAlignedIff | Bric_OS/lib/kmalloc.c:341-395 | wherever memory is found and the copy does not overrun, krealloc keeps all blocks 16-aligned if and only if it does not split at an unrounded size a block grown in place, or the larger block it has just freed |
| ReallocSizes.AlignedInSizes | Bric_OS/lib/kmalloc.c:341-395 | the same in sizes: the request is a multiple of 16, or no block grown in place has room for another one behind the unrounded size, and no block is taken back with a rest that begins behind the old header |
| ReallocSpec.SettleMeaning | Bric_OS/lib/kmalloc.c:390-395 | the end of the moving path frees the old block, trims the new one and keeps everything else |
| HeapChain.MergeLinks | Bric_OS/lib/kmalloc.c:87-96 | the pointer updates of a merge make the memory hold the merged list, next and prev included |
| HeapChain.Prepend | Bric_OS/lib/kmalloc.c:115-139 | the pointer updates of a split make the memory hold the longer list |
| HeapChain.AppendTail | Bric_OS/lib/kmalloc.c:169-173 | the pointer updates of an extension hang the new blocks behind the last one |
| HeapChain.ChainCut | Bric_OS/lib/kmalloc.c:73-97 | a linked list in memory can be cut in two at any block, prev pointers included |
| KernelHeap.KernelHeap.constructor | Bric_OS/lib/kmalloc.c:189-196 | a heap without blocks |
| KernelHeap.KernelHeap.MergeBlocks | Bric_OS/lib/kmalloc.c:73-97 | the list in memory becomes the merged one if both blocks are free and adjacent, else stays; only headers and the swallowed header's bytes change |
| KernelHeap.KernelHeap.SplitBlock | Bric_OS/lib/kmalloc.c:107-140 | the list in memory becomes the split one if 48 bytes are left over, and the rest is merged with a free successor |
| KernelHeap.KernelHeap.ExtendMem | Bric_OS/lib/kmalloc.c:148-179 | the break moves, after being aligned if need be, by the rounded size and a header, and the new blocks tile what was gained; or kbrk fails and nothing else happens |
| KernelHeap.KernelHeap.Search | Bric_OS/lib/kmalloc.c:198-248 | the walk that grows the list it walks ends, at the block that the search function names |
| KernelHeap.KernelHeap.GetEmptyMem | Bric_OS/lib/kmalloc.c:189-257 | the heap becomes what the allocation function says, and no live payload changes |
| KernelHeap.KernelHeap.HandOut | Bric_OS/lib/kmalloc.c:250-256 | the block found is split, marked used, and its surplus merged |
| KernelHeap.KernelHeap.KMalloc | Bric_OS/lib/kmalloc.c:259-293 | state and result are those of Malloc, a failure sets ENOMEM, no live payload changes |
| KernelHeap.KernelHeap.KCalloc | Bric_OS/lib/kmalloc.c:295-324 | likewise with the size computed with 64-bit wrap-around; the block holds nmemb times size bytes, a product over 32 bits gives NULL, and the whole payload is zero |
| KernelHeap.KernelHeap.KFree | Bric_OS/lib/kmalloc.c:408-458 | state is that of Free, a refusal sets EFAULT, no live payload changes |
| KernelHeap.KernelHeap.MergeBack | Bric_OS/lib/kmalloc.c:451-452 | merging with the previous block |
| KernelHeap.KernelHeap.KRealloc | Bric_OS/lib/kmalloc.c:326-406 | state and result are those of Realloc; it is lost exactly where kmalloc finds no memory or the copy overruns; no other live payload changes; the first min(old, new) bytes come along unless the previous block swallows the block, and then each byte is the one that the byte-exact account names, so that they come along wherever DeliversIff says |
| KernelHeap.KernelHeap.Vacate | Bric_OS/lib/kmalloc.c:360-380 | the merges and flag updates in front of the moving path, by which the list stays a tiling |
| KernelHeap.KernelHeap.Move | Bric_OS/lib/kmalloc.c:382-395 | the moving path: allocate, copy as many bytes as the old header then says, free, split; lost exactly where no memory is found or the copy overruns, with the bytes of KRealloc |
| KernelHeap.KernelHeap.Relocate | Bric_OS/lib/kmalloc.c:382-388 | kmalloc on the moving path and the size read back from memory: NULL exactly where the source goes on with NULL, copies over the end of the new block or reads past the break |
| KernelHeap.KernelHeap.Memset | Bric_OS/lib/string.c:20-33 | fills the range and nothing else, without touching the list |
| KernelHeap.KernelHeap.Memcpy | Bric_OS/lib/string.c:35-46 | copies the range and nothing else, without touching the list |
| KernelHeap.KernelHeap.Sweep | Bric_OS/lib/kmalloc.c:26-42 | the sweep that restarts at the head ends, frees exactly the blocks it counts, and leaves at most two blocks, the first of them free, and nothing live but the last |
| HeapBytes.HeaderWritesAreQuiet | Bric_OS/lib/kmalloc.c:107-140 | writes of headers, and of bytes in free blocks or above the break, change no live payload |
| FrameSupply.SupplyMeaning | Bric_OS/src/drivers/mmu_driver.c:546-675 | the frames handed out after addr_map_init are exactly the page-aligned addresses in available entries, from page 2 on and outside the kernel, each once |
| FrameSupply.SupplyExact | Bric_OS/src/drivers/mmu_driver.c:546-675 | in bytes: a page is handed out if and only if it starts in available memory, from address 0x2000 on, and shares no byte with the kernel |
| FrameSupply.KernelFramesLeak | Bric_OS/src/drivers/mmu_driver.c:621-652 | if the kernel is not inside one available entry, a frame of it is handed out if and only if an available entry that does not hold the whole kernel contains it |
| FrameSupply.WholeFrame | Bric_OS/src/drivers/mmu_driver.c:596-668 | a frame handed out lies wholly in available memory if and only if its entry reaches to the end of it |
| FrameSupply.PartlyReserved | Bric_OS/src/drivers/mmu_driver.c:596-668 | the memory map of a PC, in order as required, whose frame 0x9F000 is handed out although its last KiB is reserved |
| FrameSupply.GapHandedOut | Bric_OS/src/drivers/mmu_driver.c:596-668 | whatever the first entry is, a page that is no frame of an available entry is handed out if and only if it lies from page 2 on below the first range: the start of that range is moved down |
| FrameSupply.ReservedHandedOut | Bric_OS/src/drivers/mmu_driver.c:596-668 | a memory map whose first 64 KiB are reserved: its pages from 0x2000 on are all handed out |
| FrameSupply.SupplyUsable | Bric_OS/src/drivers/mmu_driver.c:596-668 | under the stated conditions on the map every range is non-empty, aligned and not at 0 |
| FrameSupply.RangesMeaning | Bric_OS/src/drivers/mmu_driver.c:596-652 | the range list covers the available memory less the kernel, without repetition |
| FrameSupply.RecordsInPage | Bric_OS/src/drivers/mmu_driver.c:605-616 | records that fit in page 1 pass the check on the local heap pointer, and records that pass it overrun the page by at most two |
| FrameSupply.RecordsFitIff | Bric_OS/src/drivers/mmu_driver.c:596-608 | the check passes if and only if at most 128 records come before the last available entry |
| FrameSupply.RecordBehindPage | Bric_OS/src/drivers/mmu_driver.c:596-668 | the check passes with a record behind page 1 if and only if there are more than 128 and at most 128 before the last available entry; that record lies at 0x2000, in the frame that is handed out first |
| FrameSupply.RecordsBehindPageOnce | Bric_OS/src/drivers/mmu_driver.c:596-668 | concrete memory maps with 129 and with 130 records that pass the check |
| FrameSupply.PagesMeaning | Bric_OS/src/drivers/mmu_driver.c:194-206 | a range steps through exactly its page-aligned addresses |
| PageTable.IndexMacros | Bric_OS/src/drivers/mmu_driver.c:69-73 | the four shift-and-mask macros read off the four parts of the 36-bit page number |
| PageTable.WalkIsLeaf | Bric_OS/src/drivers/mmu_driver.c:228-284 | following the entries in memory, as the processor does, reads the flat map from page numbers to entries |
| PageTable.MayWriteIff | Bric_OS/src/drivers/mmu_driver.c:228-284 | the R/W bits of all levels together allow a write if and only if the flat entry is present and writable |
| Mmu.Mmu.AddrMapInit | Bric_OS/src/drivers/mmu_driver.c:546-675 | succeeds exactly under the checks of the source, and then the range list is the one described by Ranges, starting on page 2 |
| Mmu.Mmu.Init | Bric_OS/src/drivers/mmu_driver.c:773-826 | under the stated conditions on the memory map it succeeds exactly when there is a sixth frame and the first five lie in the GiB that the boot code maps; then these five are the root and four tables, the rest is the supply, pages 0 to 512 map to themselves and no other page has an entry, and everything is in order exactly if the five frames lie in those pages |
| Mmu.Mmu.MapLow | Bric_OS/src/drivers/mmu_driver.c:787-794 | the identity mapping needs exactly four tables |
| Mmu.Mmu.CheckLow | Bric_OS/src/drivers/mmu_driver.c:796-811 | the check of the kernel pages never finds a mismatch |
| Mmu.Mmu.AllocNewPf | Bric_OS/src/drivers/mmu_driver.c:181-211 | hands out the frames of the supply in order; halts exactly at the last one |
| Mmu.Mmu.PfAlloc | Bric_OS/src/drivers/mmu_driver.c:829-845 | hands out the most recently freed frame, or a fresh one, exactly while one more than one is left, and the frame changes owner |
| Mmu.Mmu.PfFree | Bric_OS/src/drivers/mmu_driver.c:848-868 | succeeds exactly on aligned, non-null frames up to the end of the physical map that the kernel reaches at their own address, and pushes the frame on the free list |
| Mmu.Mmu.AllocTableEntry | Bric_OS/src/drivers/mmu_driver.c:214-225 | hangs a zeroed table into the tree without changing the flat map, exactly when a frame is left and the kernel reaches it at its own address |
| Mmu.Mmu.GetPtEntry | Bric_OS/src/drivers/mmu_driver.c:228-284 | finds the place of the page's entry, making exactly the missing tables of the next frames, and leaves the flat map alone; halts exactly when unaligned, out of frames, or at a frame it does not reach |
| Mmu.Mmu.MapPage | Bric_OS/src/drivers/mmu_driver.c:287-313 | changes the flat map at this page only, to a present writable entry of the frame; halts exactly when something is unaligned, the page is present, or the tables missing cannot be made |
| Mmu.Mmu.VirtToPhys | Bric_OS/src/drivers/mmu_driver.c:316-334 | returns the frame of the page, or NULL, for aligned addresses, and halts on others and where the tables missing cannot be made |
| Mmu.Mmu.AllocPage | Bric_OS/src/drivers/mmu_driver.c:871-889 | the page at the region's bank goes from no entry to reserved, no other entry changes, the bank moves one page; halts exactly when the tables missing cannot be made |
| Mmu.Mmu.PageFault | Bric_OS/src/drivers/mmu_driver.c:677-769 | a fault is resolved if and only if the page is reserved and a frame is left; the page gets the next frame, which nobody owned, the reserve bit is cleared, nothing else changes |
| Mmu.Mmu.FreePage | Bric_OS/src/drivers/mmu_driver.c:908-926 | succeeds exactly on aligned, present pages whose frame the kernel reaches at its own address; the frame goes to the free list, only this page loses its entry |
| Mmu.Mmu.AllocPages | Bric_OS/src/drivers/mmu_driver.c:892-905 | n pages in a row become reserved, exactly when the tables missing for the whole run can be made of the next frames |
| Mmu.Mmu.FreePages | Bric_OS/src/drivers/mmu_driver.c:929-939 | succeeds exactly when all the pages are mapped to frames that the kernel reaches and at most 2^36 of them; then exactly their frames are free and exactly they have no entry |
| Mmu.Mmu.Brk | Bric_OS/src/drivers/mmu_driver.c:945-979 | kbrk and sbrk succeed exactly when the tables missing for the whole pages of the increment can be made; they return the old break and move it by these pages: by the increment if and only if that is a multiple of 4096 |
| Mmu.HangTable | Bric_OS/src/drivers/mmu_driver.c:214-225 | a zeroed table below a non-present entry leaves every page's entry as it was |
| Mmu.WriteLeaf | Bric_OS/src/drivers/mmu_driver.c:303-310 | writing one entry of a page table changes the entry of one page |
| Mmu.TakeFresh | Bric_OS/src/drivers/mmu_driver.c:835-835 | each frame keeps a single owner when one is taken off the supply |
| MmuRuns.RunKeeps | Bric_OS/src/drivers/mmu_driver.c:677-939 | over any run of calls and faults no frame is lost or invented, tables are never given up, and each present page outside the identity map has a frame that names it as owner |
| MmuRuns.StatusOfRun | Bric_OS/src/drivers/mmu_driver.c:677-926 | over any run, whether a page is absent, reserved or mapped in the tables depends only on the calls and faults on this page: reserved by MMU_alloc_page, mapped by the first fault, absent after MMU_free_page |
| MmuRuns.MappedStays | Bric_OS/src/drivers/mmu_driver.c:677-926 | over any run a mapped page keeps its entry and frame until it is freed, and no fault and no direct allocation gets that frame meanwhile |
| MmuRuns.OneUse | Bric_OS/src/drivers/mmu_driver.c:181-225 | each frame is in exactly one of: the supply, the free list, the tables, the demand-mapped pages, frames held by callers; and it is mapped for one page at most |
| MmuRuns.HardwareWalk | Bric_OS/src/drivers/mmu_driver.c:228-284 | the processor's walk from CR3 reads the flat map for every page |
| MmuRuns.HardwareWrites | Bric_OS/src/drivers/mmu_driver.c:228-284 | the processor may write to a page, which takes the present and the writable bit in the entries of all four levels, if and only if the flat map has a frame for it |
| MmuRuns.UpperEntries | Bric_OS/src/drivers/mmu_driver.c:208-284 | in every state the entries above the page tables are zero, or present and writable and name exactly the table below |
| MmuRuns.LowWalk | Bric_OS/src/drivers/mmu_driver.c:774-826 | below 1 TiB the processor finds pages 0 to 512 mapped to themselves, for writing, and nothing else |
| MmuRuns.ReachedThroughTables | Bric_OS/src/drivers/mmu_driver.c:773-826 | once CR3 is loaded, the walk for a frame's own address finds that frame if it lies in pages 0 to 512, and an entry of zeros, on which the fault handler halts, if it does not |
| MmuRuns.AlwaysReached | Bric_OS/src/drivers/mmu_driver.c:214-284 | every table and every frame on the free list lies in those pages |
| MmuRuns.FreeHighFrame | Bric_OS/src/drivers/mmu_driver.c:848-926 | a concrete run from the start of the driver: MMU_init, MMU_alloc_page and the first fault succeed, and MMU_free_page of that page halts, because its frame is 0x201000 |
| MmuRuns.ViewIsOk | Bric_OS/src/drivers/mmu_driver.c:677-926 | the invariant of the run theorems is what the driver's own state gives |
| MmuRuns.EntriesApart | Bric_OS/src/drivers/mmu_driver.c:278-283 | distinct pages have distinct places for their entries in memory |
| MmuRuns.Perform | Bric_OS/src/drivers/mmu_driver.c:677-926 | each call and fault takes exactly a step of the run relation, from a view in order to a view in order: this ties the run theorems to the code |
| RoundRobin.RoundRobin.ValidateLl | Bric_OS/lib/ksched.c:30-63 | never halts on a list in order |
| RoundRobin.RoundRobin.Admit | Bric_OS/lib/ksched.c:68-92 | appends; the list is in order afterwards if and only if it was empty, or the thread was not in it and had no successor link |
| RoundRobin.RoundRobin.Remove | Bric_OS/lib/ksched.c:95-137 | for a member the list in memory stays in order and becomes the pool without it; a list of one is emptied whoever the victim is; for a thread that is not in a list of two or more, the list is in order afterwards if and only if its links pass over exactly one thread of the pool, which is then the one lost |
| RoundRobin.RoundRobin.Next | Bric_OS/lib/ksched.c:140-170 | returns the head, moves it to the tail, and keeps the links in order |
| RoundRobin.FullRound | Bric_OS/lib/ksched.c:140-170 | n calls of rr_next on n threads return each once, in order, and restore the pool |
| RoundRobin.ServeSome | Bric_OS/lib/ksched.c:140-170 | k calls of rr_next return the first k threads and move them, in order, to the back |
| RoundRobin.ServedInTime | Bric_OS/lib/ksched.c:68-170 | the thread at position i is returned within i + 1 calls of rr_next, whatever is admitted and whoever else is removed in between |
| RoundRobin.DeleteMeaning | Bric_OS/lib/ksched.c:95-137 | removal takes out the victim and nobody else |
| Proc.Proc.SetScheduler | Bric_OS/lib/kproc.c:52-104 | without an active scheduler, or for NULL, no thread moves; otherwise the new pool is its threads, then the current thread, then the old pool in next() order, and the old pool is empty |
| Proc.TransferToSelf | Bric_OS/lib/kproc.c:70-88 | from the round-robin scheduler to itself the transfer comes to an end only if there is no thread: with one thread, in the pool or current, it halts the kernel, and with two or more there is a next thread after any number of turns |
| Proc.TurnAgain | Bric_OS/lib/kproc.c:80-88 | one turn of that: the thread at the end is linked to itself and unlinked, and the pool is rotated; a pool of one halts |
| Proc.HandOver | Bric_OS/lib/kproc.c:70-88 | the transfer loop ends, with each thread moved once and in order |
| Proc.MoveOne | Bric_OS/lib/kproc.c:80-88 | one turn of the loop moves one thread and takes the next |
| Serial.RunKeeps | Bric_OS/src/drivers/serial_io_driver.c:106-288 | over any sequence of producer calls and interrupts, one after the other, and any hardware status, the bytes sent, followed by the bytes held, are the bytes accepted, at most 16 are held, and nothing sent or accepted is taken back; SerialSteps has the interrupts inside a call |
| Serial.Drains | Bric_OS/src/drivers/serial_io_driver.c:255-276 | n transmit interrupts, for n up to the number held, send the n oldest bytes in order |
| Serial.WithoutInterrupts | Bric_OS/src/drivers/serial_io_driver.c:106-253 | without interrupts, bytes go straight to the port if and only if the ring is empty and the flag is set; otherwise none is sent and the ring fills up |
| Serial.StalledByHandler | Bric_OS/src/drivers/serial_io_driver.c:110-288 | after a transmit interrupt, message included, the port waits for another interrupt, whatever the hardware answers, but for a message of one byte on an empty ring whose flag is clear |
| Serial.HandlerByKind | Bric_OS/src/drivers/serial_io_driver.c:255-288 | what the handler sends and prints by bits 1 to 3 of the register: one byte for a transmit interrupt, and a second message for one that is neither transmit nor line status |
| Serial.RegisterBits | Bric_OS/src/drivers/serial_io_driver.c:55-60 | bits 1 to 3 alone tell the interrupts apart, for every byte, and bit 5 of the line status the state of the port |
| Serial.OtherBits | Bric_OS/src/drivers/serial_io_driver.c:55-59 | the other five bits decide nothing: so 0xC2, which the port reads with its FIFOs enabled, is a transmit interrupt |
| Serial.PollsPort | Bric_OS/src/drivers/serial_io_driver.c:106-131 | a byte put on an empty ring whose flag is clear stays there, and the flag becomes bit 5 of the line status |
| Serial.SerialFifo.constructor | Bric_OS/src/drivers/serial_io_driver.c:133-153 | an empty ring, ready to send |
| Serial.SerialFifo.ConsGet | Bric_OS/src/drivers/serial_io_driver.c:162-201 | takes the oldest byte of the ring, fails exactly on an empty one |
| Serial.SerialFifo.HwWrite | Bric_OS/src/drivers/serial_io_driver.c:106-131 | sends the oldest byte if the flag is set, else reads the hardware status |
| Serial.SerialFifo.ProdAdd | Bric_OS/src/drivers/serial_io_driver.c:210-253 | appends to the ring exactly when it is not full, and starts sending at the first byte; SerialSteps.Uninterrupted and SerialHarm.InOrderIff say when the statements of the source amount to this step |
| Serial.SerialFifo.TxIrqHandler | Bric_OS/src/drivers/serial_io_driver.c:255-288 | the handler's own message goes through the ring first; then only a transmit interrupt sends, and an interrupt that is neither transmit nor line status prints again |
| Serial.SerialFifo.SerialWrite | Bric_OS/src/drivers/serial_io_driver.c:350-379 | whatever comes in before each byte, other producers' bytes and interrupts with what they print, the count returned is exactly the number of bytes that find room when their turn comes, up to the first that does not; the bytes accepted are those of the text, each behind what the others bring in before it, and the state is that of the woven sequence of events |
| Serial.WovenInOrder | Bric_OS/src/drivers/serial_io_driver.c:350-379 | each byte of the text that finds room is accepted at its turn, whoever prints in between |
| Serial.RoomyUpTo | Bric_OS/src/drivers/serial_io_driver.c:350-379 | the first byte of the text that finds no room decides: with that count, and no other, all bytes counted found room |
| Serial.TextInOrder | Bric_OS/src/drivers/serial_io_driver.c:350-379 | the bytes counted are found in what is accepted in the order of the text, each at a place of its own |
| Serial.AloneInOrder | Bric_OS/src/drivers/serial_io_driver.c:350-379 | if nobody else prints in between, the bytes accepted are the front of the text |
| SerialSteps.OnInside | Bric_OS/src/ISR/irq_handler.c:262-296 | with sti and cli as the source has them, interrupts are on exactly inside a critical section, and after one inside another they stay on for good |
| SerialSteps.Uninterrupted | Bric_OS/src/drivers/serial_io_driver.c:210-253 | the statements of prod_add, hw_write and cons_get, executed one by one without an interrupt, do to the ring what the one step Add says |
| SerialSteps.HandlerAsEvents | Bric_OS/src/drivers/serial_io_driver.c:255-288 | between calls the handler, message included, is a sequence of the events of Serial |
| SerialInterrupts.InterruptedRunKeeps | Bric_OS/src/drivers/serial_io_driver.c:106-288 | with interrupts between any two statements, messages included, the bytes sent, the one on its way and those held are those accepted, in order, over any run in which nothing harmful happens: a byte stored in a ring that a message has filled after the test, a message that fills the ring while a byte is stored and not counted or meets the pointer of the producer behind the buffer, or anything that sends a byte before the one that has been read |
| SerialHarm.RunInOrderIff | Bric_OS/src/drivers/serial_io_driver.c:106-288 | over any run of calls, with any number of interrupts and their messages before any statements: once the last call is through, the ring is in order if and only if none of that has happened |
| SerialHarm.HarmForGood | Bric_OS/src/drivers/serial_io_driver.c:180-247 | whatever calls and interrupts follow it, each of these harms is never made good: bytes sent out of turn, a byte stored over the next one to be sent, and the pointer written over |
| SerialHarm.InOrderIff | Bric_OS/src/drivers/serial_io_driver.c:106-288 | for one interrupt before any statement of a call of prod_add, hw_write and cons_get, from every state in order: the ring is in order after the call if and only if a condition holds on the statement, the count, the flag, the pointer of the producer, the length of the message and the kind of interrupt, all known before the interrupt |
| SerialHarm.StoreHarm | Bric_OS/src/drivers/serial_io_driver.c:223-232 | a message that fills the ring just before a byte is stored, in an interrupt that sends none, leaves seventeen bytes counted |
| SerialHarm.Overtaken | Bric_OS/src/drivers/serial_io_driver.c:180-289 | a concrete call from the empty ring: a transmit interrupt between the read of a byte and the decrement of the count sends the first byte of its own message ahead of the byte read |
| SerialHarm.BehindTheBuffer | Bric_OS/src/drivers/serial_io_driver.c:85-92 | the same call after any fifteen bytes: what is sent first is the byte behind the buffer, which is the low byte of the pointer prod |
| Serial.RingPop | Bric_OS/src/drivers/serial_io_driver.c:180-189 | taking at the consumer index, with wrap-around, removes the first byte held |
| Serial.RingPush | Bric_OS/src/drivers/serial_io_driver.c:227-236 | storing at the producer index, with wrap-around, appends to the bytes held |
| CString.MemSet | Bric_OS/lib/string.c:20-33 | fills exactly the range |
| CString.MemCpy | Bric_OS/lib/string.c:35-46 | leaves what a byte-by-byte forward copy leaves |
| CString.CopiedMeaning | Bric_OS/lib/string.c:35-46 | a forward copy is right if the destination is not above the source, overlapping or not, or the ranges are apart |
| CString.CopiedOverlap | Bric_OS/lib/string.c:35-46 | copied upwards into its own source, it repeats the first bytes |
| CString.StrNLen | Bric_OS/lib/string.c:48-63 | the smaller of the length up to the terminator and the limit |
| CString.StrNCpy | Bric_OS/lib/string.c:150-170 | copies at most n bytes of the string, no terminator, and touches nothing else |
| CString.StrNCat | Bric_OS/lib/string.c:65-82 | appends at most n bytes to the text; what is behind it stays zero and what is before it stays |
| Numbers.NumberReadsBack | Bric_OS/lib/printk.c:53-87 | the digits read back as the number, for every number and base 2 to 36, padded or not |
| Numbers.SignedReadsBack | Bric_OS/lib/printk.c:89-101 | so does the signed text for every 64-bit number, the least one included, whose negation wraps |
| Numbers.NumberLength | Bric_OS/lib/printk.c:63-75 | the length is the larger of the digit count and the padding width |
| Numbers.NumberDigits | Bric_OS/lib/printk.c:77-86 | only digits of the base are written |
| Numbers.NoLeadingZero | Bric_OS/lib/printk.c:63-75 | no zero leads that was not asked for |
| Numbers.NumberCase | Bric_OS/lib/printk.c:76-87 | digits from ten on are letters of the case asked for, and the others are 0 to 9 |
| Numbers.WordDigits | Bric_OS/lib/printk.c:53-87 | a 64-bit number has at most 22 digits in base 8 and above |
| Numbers.FormatChar | Bric_OS/lib/printk.c:40-40 | appends one character, and nothing for NUL |
| Numbers.FormatStr | Bric_OS/lib/printk.c:42-51 | appends the string to the text and keeps the zeros behind it |
| Numbers.FormatLlu | Bric_OS/lib/printk.c:53-87 | the recursion appends the number's text, leaving the earlier text and the zeros behind |
| Numbers.FormatLl | Bric_OS/lib/printk.c:89-101 | appends the signed text, through a pointer one past the start of the text |
| Printk.Print | Bric_OS/lib/printk.c:165-252 | for any format and matching arguments it stays in the buffer if and only if no string runs over the end of what is left of it, and then the chunks printed, put together, are what the format means, wherever the buffer was flushed |
| Printk.ShortFits | Bric_OS/lib/printk.c:176-200 | strings of at most 32 characters always stay in the buffer |
| Printk.LoneString | Bric_OS/lib/printk.c:176-200 | a string printed alone does if and only if it has fewer than 1024 characters |
| PrintkMeaning.TextThenString | Bric_OS/lib/printk.c:176-204 | a string behind n plain characters fits if and only if n mod 992 and its length make less than 1024: the buffer is flushed at 992 |
| Printk.PrintClearBuff | Bric_OS/lib/printk.c:150-161 | prints exactly the text and leaves a buffer of zeros |
| Printk.FormatArg | Bric_OS/lib/printk.c:113-148 | one conversion appends its text |
| Printk.IntReadsBack | Bric_OS/lib/printk.c:113-148 | what a number conversion prints reads back as the argument, cut to the width asked for |
| PrintkMeaning.PrintsSigned | Bric_OS/lib/printk.c:113-122 | %d and %i with each length, anywhere in a format: a plain decimal number, with a minus sign if negative, that differs from the argument by a multiple of 2^32, or 2^64 for l, ll and q, and lies in the signed range of that width |
| PrintkMeaning.PrintsUnsigned | Bric_OS/lib/printk.c:123-142 | %u, %o, %x and %X likewise in the unsigned range and their bases, with small letters for x and capitals for X and no needless zeros |
| PrintkMeaning.PrintsPointer | Bric_OS/lib/printk.c:109-111 | %p prints 0x and at least eight digits with small letters, which read back as the 64-bit address |
| PrintkMeaning.PrintsChar | Bric_OS/lib/printk.c:195-197 | %c prints the character that the low byte of its argument is, and nothing for NUL |
| PrintkMeaning.PrintsString | Bric_OS/lib/printk.c:199-201 | %s prints the string, and nothing for NULL |
| PrintkMeaning.PrintsItself | Bric_OS/lib/printk.c:143-149 | a percent sign before a letter without a meaning prints both, and two percent signs print one |
| PrintkMeaning.EndsInPercent | Bric_OS/lib/printk.c:143-149 | a percent sign at the end of a format, with or without a length, prints one |
| Printk.ArgFits | Bric_OS/lib/printk.c:178-182 | every conversion needs at most the 32 bytes that are left when the buffer is flushed |
| Printk.PlainText | Bric_OS/lib/printk.c:240-243 | text without a percent sign prints as it is |
| Printk.FromHere | Bric_OS/lib/printk.c:176-245 | what a format prints from a position on does not depend on what is in front of it |
| Printk.FormatPrintsItems | Bric_OS/lib/printk.c:176-245 | a format written item by item, characters with the percent sign doubled and conversions with their length, prints exactly the texts of the items, from any item on |
| Printk.LengthDropped | Bric_OS/lib/printk.c:207-230 | "%hc", "%ls" and every other length before a letter that is no number conversion print the percent sign and the letter, and the rest of the format prints as it would alone, with all the arguments |
| Vga.ShownWindow | Bric_OS/src/drivers/vga_driver.c:250-354 | after a clear, strings of ordinary characters leave the screen showing the last lines of all of them put together, with the cursor behind |
| Vga.WindowGrows | Bric_OS/src/drivers/vga_driver.c:311-333 | one more ordinary character, at a line end and at the bottom too, shows the longer text |
| Vga.BackspaceUndoes | Bric_OS/src/drivers/vga_driver.c:190-214 | a backspace after a visible character goes back to it and blanks it, across line ends and scrolling |
| Vga.TypedAttr | Bric_OS/src/drivers/vga_driver.c:311-333 | the cell of the character just typed has its attributes, wherever scrolling has taken it |
| VgaCells.TypedBytes | Bric_OS/src/drivers/vga_driver.c:311-333 | any character but CR, LF, TAB, BS, DEL and ESC, from every screen: it is in the cell of the cursor with its attributes, every other byte is as before, and all moves up a line, with a blank one below, exactly at the end of the last line |
| VgaCells.NewlineCells | Bric_OS/src/drivers/vga_driver.c:267-333 | a newline likewise puts a space in the cell of the cursor and goes to the next line; right after a full line it changes nothing |
| VgaCells.ReturnCells | Bric_OS/src/drivers/vga_driver.c:258-265 | a carriage return puts a space in the cell of the cursor, and goes to the start of the line |
| VgaCells.TabCells | Bric_OS/src/drivers/vga_driver.c:284-333 | a tab puts a space in the cell of the cursor, and goes to the least multiple of 4 that is not before it, or to the next line |
| VgaCells.BackspaceCells | Bric_OS/src/drivers/vga_driver.c:190-215 | backspace and delete blank, in white on black, the nearest character before the cursor in its line, or in the line above at a line start, or the first cell of that line if it has none; at the top left they change nothing; no other byte changes |
| VgaCells.EscapeCells | Bric_OS/src/drivers/vga_driver.c:304-309 | an escape prints its message in white on black |
| VgaCells.StringCells | Bric_OS/src/drivers/vga_driver.c:339-354 | a string blanks the cell of the cursor and then shows its characters one by one |
| VgaCells.ScrolledBytes | Bric_OS/src/drivers/vga_driver.c:147-188 | scrolling by any number of lines, byte by byte, with the cursor |
| Vga.NewlinesLost | Bric_OS/src/drivers/vga_driver.c:267-282 | after a text that fills its last line any number of newlines is lost |
| Vga.TabsStay | Bric_OS/src/drivers/vga_driver.c:284-294 | any number of tabs takes the cursor exactly where the first one does, to a column that is a multiple of 4 |
| Vga.Vga.Clear | Bric_OS/src/drivers/vga_driver.c:237-248 | a blank screen with the cursor at home |
| Vga.Vga.Scroll | Bric_OS/src/drivers/vga_driver.c:147-188 | the overlapping copy moves the lines up, and blank ones come in at the bottom |
| Vga.Vga.ProcessBackspace | Bric_OS/src/drivers/vga_driver.c:190-214 | ends at the last character before the cursor, or at the first column, and blanks it |
| Vga.Vga.StepBack | Bric_OS/src/drivers/vga_driver.c:206-210 | stops at the nearest visible character to the left, or at column 0 |
| Vga.Vga.DisplayAttrChar | Bric_OS/src/drivers/vga_driver.c:250-337 | for every character the cursor stays on the screen and every access is inside it; the screen becomes what Char says |
| Vga.Vga.DisplayAttrStr | Bric_OS/src/drivers/vga_driver.c:339-354 | for every string likewise, the cell of the cursor being blanked first |

## Left out

- KernelHeap.KernelHeap.KRealloc: says nothing about the heap where `kmalloc` finds no memory or the copy overruns, because the source then copies to NULL or over the next header; nor `errno` after a call that goes through `kmalloc` or `kfree`.
- KernelHeap.KernelHeap.Sweep: without the `kbrk` call with a negative increment at the end of `kmalloc_cleanup`, which its unsigned parameter cannot mean.
- Mmu.Mmu.Init: the multiboot tag that holds the memory map is a parameter, and installing the fault handler always succeeds. More than 128 range records are excluded: the one behind page 1 would be cleared with the first frame.
- MmuRuns.ReachedThroughTables: the kernel's own code, stack and devices are taken to lie in pages 0 to 512.
- Mmu.Mmu.AllocPages: running past the end of a region into the next one is excluded.
- Mmu.Mmu.AllocPage: only the kernel heap and user heap regions; the stack and interrupt stack regions start at unaligned addresses and halt.
- Mmu.Mmu.FreePage: pages of the identity mapping, which nothing frees. `MMU_free_page` never flushes the TLB, so what is said of a page after it (here and in `MmuRuns`) is said of the tables: the processor may go on using the old entry.
- Mmu.Mmu.FreePages: runs that contain such a page.
- Mmu.Mmu.Brk: an increment that passes the end of the region.
- Mmu.Mmu.PageFault: walk_virt_addr and decode_error_flags, which only print, and the flush of the TLB.
- PageTable.WalkIsLeaf: the other bits of an entry (user, write-through, accessed, dirty, no-execute), which the driver never sets.
- RoundRobin.RoundRobin.Remove: what a write through a NULL link hits; no thread lies there.
- Proc.Proc.SetScheduler: the init and shutdown hooks, which the default scheduler does not have; a second scheduler is one that keeps its pool by means of its own.
- Proc.TransferToSelf: a current thread that is in the pool and not the one served last.
- PROC_run, yield, kexit and context switches, which are unfinished in the source.
- SerialHarm.RunInOrderIff: asks that at the first harm no other byte can pass for the one whose turn it is: it occurs neither later in the ring nor in what comes in then, nor, where it is written over, in anything that comes later. The same holds for `SerialHarm.InOrderIff` and `SerialHarm.HarmForGood`. What a write behind the buffer, onto the pointer prod, leaves in it depends on where the ring lies and on the order in which the compiler writes; nothing is claimed of the ring after it but that it is not in order.
- Serial.SerialFifo.SerialWrite: interrupts inside a byte's own call, which `SerialSteps` has; programming the port.
- Printk.Print: arguments that do not match the format, and what a string that runs over the end of the buffer destroys.
- Printk.PrintClearBuff: the screen and the serial port are one log of chunks; that serial_write may accept only a front of a chunk is what `Serial.SerialFifo.SerialWrite` states.
- Numbers.FormatLlu: the branch for a text of 65535 characters, which a 1024-byte buffer cannot hold.
- Vga.Vga.DisplayAttrChar: the hardware cursor and the interrupt flag. VGA_display_char, which reads behind its one character, and VGA_display_attr_char_pos.
- strcmp, strncmp, strcpy and strcat, which nothing here uses.
- Keyboard, timer, interrupt tables, GDT, boot code, the demo and the commented-out file system: tables, port programming or no code.
