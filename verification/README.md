# VostokOS, verified model

A Dafny model of the core of the VostokOS kernel (x86_64): physical memory, page tables, kernel
heap, preemptive scheduler, archive loader and file list, number printing, scrollback, keyboard
and spinlock. Objects that the kernel changes in place are classes, its loops are loops; every
method is proved against values (sets, maps, sequences of blocks, of threads, of lines), and the
properties are lemmas about those values.

`dafny verify dfyconfig.toml` checks the whole project.

## How it is layered

- `Sizes`, `Sequences`, `Rings`: constants and facts that several modules share.
- `Bitmap`, `Pmm`: a byte array read as a set of page numbers; the physical page allocator on top.
- `Bits`, `Pte`, `PageTables`, `Vmm`: machine words with C's bit operators, page table entries, the
  tree of tables inside physical memory with the processor's walk (4-level paging, sections 4.5 and
  4.6 of the Intel SDM, Volume 3A), and the kernel's edits of it. The client's view is a map from
  virtual page number to frame and flags.
- `HeapMemory`, `HeapBlocks`, `HeapProperties`, `HeapLayout`, `HeapCalls`, `Heap`: heap addresses go
  through that page table to physical words; blocks in address order and what the operations do to
  them; how headers lie in memory; whole runs of calls; and the class `KernelHeap` that reads and
  writes the headers.
- `Context`, `Processors`, `Scheduling`, `RunList`, `Preemption`: trap frame, push and pop order,
  round robin as a step function on values, the circular list, and the machine with stacks in memory
  that joins them; whole runs of that machine are methods with contracts.
- `CStrings`, `Vfs`, `Tar`; `Numbers`; `Terminal`.
- `Keyboard`, `MainLoop`, `Spinlocks`: protocols as step functions on values, with the properties of
  all interleavings, and classes whose methods take exactly those steps.

## Findings

- `itoa` is right exactly for values that are not negative and, in base 10, for negative ones other
  than the minimum (`Numbers.ItoaIsRight`, with both failures in `Numbers.ItoaIsWrong`): the negation of the
  minimum wraps, and in other bases negative remainders become characters that are not digits.
- A member name that fills all 100 bytes of its field is read on into the next field; it is
  registered unchanged exactly if a NUL happens to follow it (`Tar.NameIsRead`, with such a member in
  `Tar.FullNameIsMisread`).
- `kmalloc` grows the heap by enough pages exactly up to 2^64 - 4144 bytes
  (`HeapBlocks.GrowthDoesNotWrap`). If something fits, it grants enough exactly up to 2^64 - 16 bytes
  (`HeapProperties.GrantCoversRequest`); on the initial heap, a request of 2^64 - 1
  bytes is granted 0 bytes (`HeapProperties.HugeRequest`).
- With 20 or more text rows on the screen the scrollback can never be scrolled
  (`Terminal.Screen.NothingToScroll`), and the last correction in `redraw_screen` never applies.
- The main loop depends on `sti` taking effect one instruction late: without that, a wakeup can be
  lost (`MainLoop.NoLostWakeup`, `MainLoop.UnlessDelayed`).
- Heap payloads are multiples of 8. Although sizes are rounded to 16, whether a payload is a multiple
  of 16 depends on its place in the list: the first never is, block i is exactly if i and the number
  of blocks before it whose size is 8 modulo 16 add up to an odd number
  (`HeapProperties.PayloadAlignment`, `HeapProperties.MallocAlignment`). Two requests of 16 bytes on
  the initial heap get one of each kind (`HeapProperties.TwoRequests`).

## Assumptions

- Physical page 0 is not usable: address 0 means "none" for the allocator and for the walker.
  `Vmm` states where this would matter; the heap requires it.
- The boot memory map is page-aligned, without overlap, and below 2^52.
- Page tables start from a zeroed PML4; `paddr` is page-aligned and below 2^52, flags are those of
  mm/vmm.h. Physical memory is reached through an array of words instead of the HHDM.
- The heap's address range is not mapped otherwise, and there are at most 2^34 page frames.
- `kfree` and `krealloc` get null or live pointers.
- Threads have disjoint stacks with room for an interrupt, and write outside each other's stacks.
  Handlers written in C are represented by the memory they may write and the registers they may
  change.
- Critical sections do not turn interrupts on themselves.
- A panic is an outcome of a method; its contract says when it can happen.

## Model

| member | source | states |
|---|---|---|
| Bitmap.Set | lib/bitmap.c:3-5 | the set of bit numbers gains exactly `index` |
| Bitmap.Clear | lib/bitmap.c:7-9 | the set of bit numbers loses exactly `index` |
| Bitmap.IsSet | lib/bitmap.c:11-12 | membership in the set |
| Bitmap.MembersDetermineBytes | lib/bitmap.c:3-12 | bitmaps for the same set are equal byte for byte, so that set and clear can do nothing else |
| Bitmap.BitValues | lib/bitmap.c:11-12 | bit k of a byte is the one of weight 2^k |
| Pmm.Scan | mm/pmm.c:24-38 | highest address over all regions, and the total is 4096 times the number of usable pages |
| Pmm.FindSpot | mm/pmm.c:43-61 | the first usable region that can hold the bitmap, or that there is none |
| Pmm.ClearRegion | mm/pmm.c:75-89 | exactly the pages of a region that do not hold the bitmap become free, and are counted |
| Pmm.SetUpIs | mm/pmm.c:43-91 | in plain numbers: the bitmap lies in the first usable region with room for its bytes, and exactly the usable pages outside those bytes are free |
| Pmm.Init | mm/pmm.c:20-96 | the free pages are exactly the usable ones that do not hold the bitmap, the counters add up, and it fails exactly when no region can hold the bitmap |
| Pmm.Allocator.AllocPage | mm/pmm.c:99-111 | the lowest free page, taken out of the free set, or 0 and nothing changed if none is free; bits and counters stay in step |
| Pmm.Allocator.FreePage | mm/pmm.c:114-125 | the page becomes free; addresses above memory and free pages change nothing |
| Pmm.Allocator.AllocPages | mm/pmm.c:128-156 | with its skip-ahead, a complete first fit: the lowest run of `count` free pages, marked exactly, or 0 and nothing changed if there is no such run |
| Pmm.Allocator.CheckRun | mm/pmm.c:135-142 | whether `count` pages from a free one on are free, or how far the first used one is |
| Pmm.Allocator.FreePages | mm/pmm.c:158-169 | a run in use becomes free, counters in step |
| Pte.EntryFields | mm/vmm.c:92 | frame and flags of `paddr or flags` read back exactly through the masks |
| Pte.UpgradeFields | mm/vmm.c:50-58 | setting USER or RW in an entry changes neither its frame nor its other rights |
| Pte.FlagBits | mm/vmm.h:8-13 | PRESENT, RW, USER and NX are bits 0, 1, 2 and 63, and the processor's large page bit is 7 |
| PageTables.TranslationIsLookup | mm/vmm.c:66-95 | for every address the processor's walk gives the address and exactly the USER, RW and NX rights of the client's map |
| PageTables.SlotsApart | mm/vmm.c:31-64 | as no two positions share a table frame, no two share an entry |
| PageTables.TableAddedKeeps | mm/vmm.c:33-47 | linking a fresh zeroed table changes no page and keeps the tree |
| PageTables.UpgradeKeeps | mm/vmm.c:49-62 | upgrading a shared intermediate entry changes no page's mapping or rights |
| PageTables.LeafWriteKeeps | mm/vmm.c:91-92 | writing a leaf entry changes the mapping of that page and of no other |
| PageTables.DataWriteKeeps | mm/vmm.c:31-95 | stores outside the table frames do not disturb the tree |
| PageTables.PageHasTables | mm/vmm.c:79-82 | above a mapped page all three tables exist |
| Vmm.ZeroFrame | mm/vmm.c:40-42 | exactly the words of one frame become 0 |
| Vmm.AddressSpace.TakeFrame | mm/vmm.c:35-38 | a fresh frame was free and is not a table |
| Vmm.AddressSpace.NewTable | mm/vmm.c:33-47 | a missing table comes from a free frame and joins the tree at its position |
| Vmm.AddressSpace.OldTable | mm/vmm.c:49-63 | an existing table is returned, with the rights asked for and no page changed |
| Vmm.AddressSpace.GetNextLevel | mm/vmm.c:31-64 | the table at a position, created only if missing, and open to user code if asked; fails only without free frames |
| Vmm.AddressSpace.Descend | mm/vmm.c:79-82 | the page table of an address after the three steps |
| Vmm.MappingIs | mm/vmm.c:92 | the page mapped has the address and the USER, RW and NX rights given, every other address those it had |
| Vmm.MappedTranslation | mm/vmm.c:66-95 | the same of the processor's walk through the tables before and after |
| Vmm.AddressSpace.Map | mm/vmm.c:66-95 | when it succeeds with a present mapping, the processor translates every address of the page to `paddr` plus its low 12 bits, with USER, RW and NX as in the flags given, and every other address as before; the leaf entry is `paddr` or the flags; double mapping is detected exactly, and memory outside table frames is untouched |
| Vmm.AddressSpace.FindTable | mm/vmm.c:103-111 | the walk without creation finds the page table whenever the page is mapped |
| Vmm.AddressSpace.Unmap | mm/vmm.c:97-118 | the addresses of this page are unmapped, every other address is translated as before |
| Vmm.AddressSpace.VirtToPhys | mm/vmm.c:121-147 | frame plus low 12 bits for a mapped page, 0 otherwise, and the same address as the processor's walk |
| Vmm.AddressSpace.Execute | mm/vmm.c:31-118 | after any sequence of map and unmap calls, translation and rights at every address are those of the plain map the calls describe; it stops early only for a double mapping or without frames |
| Vmm.Init | mm/vmm.c:149-158 | a fresh zeroed PML4 is an empty address space |
| Vmm.PathIndexes | mm/vmm.c:67-70 | the four index expressions select the path the processor takes |
| HeapMemory.HeapTranslation | mm/heap.c:94-102 | every heap address is translated to the word of its own frame, writable |
| HeapMemory.CellsApart | mm/heap.c:93-102 | different heap words are different physical words |
| HeapMemory.KernelMemory.Store | mm/heap.c:56-69 | a store through the page tables changes one heap word and neither another one nor the tables |
| HeapMemory.KernelMemory.AddPage | mm/heap.c:93-102 | a page is added behind the heap; fails only without free frames; the words so far stay |
| HeapBlocks.AlignRoundsUp | mm/heap.c:28-30 | rounds up to a multiple of 16 exactly for sizes that do not wrap |
| HeapBlocks.GrowthDoesNotWrap | mm/heap.c:83-90 | the number of pages computed in 64 bits is enough up to MAX_REQUEST, and not enough for any larger aligned size |
| HeapBlocks.FirstFit | mm/heap.c:42-48 | the first free block that fits, and none before it does |
| HeapBlocks.TakeKeepsShape | mm/heap.c:48-73 | allocation and split keep exact tiling, minimal sizes, and no two free neighbours |
| HeapBlocks.ExtendIsMerge | mm/heap.c:104-131 | growth appends a free block and merges it with a free last one |
| HeapBlocks.ExtendKeepsShape | mm/heap.c:82-132 | growth keeps the shape over the longer span |
| HeapBlocks.ReleaseIsSplice | mm/heap.c:203-229 | freeing turns the run of free neighbours into one block of exactly their bytes |
| HeapBlocks.ReleaseKeepsShape | mm/heap.c:191-232 | freeing keeps the shape |
| HeapBlocks.InOrder | mm/heap.c:39-132 | blocks do not overlap |
| HeapProperties.SomethingFits | mm/heap.c:42-48 | the search finds something exactly if some free block is large enough |
| HeapProperties.MallocGrows | mm/heap.c:166-182 | the heap grows only if no free block fits; then it has a longer free end, by the least number of pages that hold the request and a header |
| HeapProperties.GrownFits | mm/heap.c:176-180 | after growing, the second search always succeeds |
| HeapProperties.MallocGrants | mm/heap.c:161-189 | the lowest-addressed free block that fits, of at least n and less than n + 56 bytes |
| HeapProperties.GrantCoversRequest | mm/heap.c:166-173 | if something fits, the block granted holds the bytes asked for exactly if rounding up did not wrap |
| HeapProperties.HugeRequest | mm/heap.c:28-30 | on the initial heap, 2^64 - 1 bytes are granted as a block of 0 bytes |
| HeapProperties.PayloadAlignment | mm/heap.c:9-19 | every payload is 8-aligned, and 16-aligned exactly at every other place, counting blocks of odd size |
| HeapProperties.MallocAlignment | mm/heap.c:161-189 | what `kmalloc` returns is 16-aligned exactly if the first fitting block is at such a place |
| HeapProperties.FirstPayload | mm/heap.c:148-150 | the first payload of the heap is 8 modulo 16 |
| HeapProperties.TwoRequests | mm/heap.c:161-189 | on the initial heap, the first request of 16 bytes is off 16 and the second is on it |
| HeapProperties.MallocKeepsLive | mm/heap.c:161-189 | exactly one new live block, all others as they were |
| HeapProperties.FreeUndoesMalloc | mm/heap.c:191-232 | `kfree(kmalloc(n))` gives back the state before if some free block was large enough, otherwise that state with only a longer free end, by the least number of pages |
| HeapProperties.ReleaseRemovesLive | mm/heap.c:191-232 | freeing removes one live block and changes no other |
| HeapProperties.MallocUses | mm/heap.c:269-292 | an allocation adds the size granted to the used bytes, also when the heap grows |
| HeapProperties.ReleaseGivesBack | mm/heap.c:269-292 | freeing takes the size of the block from the used bytes, whatever is merged |
| HeapProperties.LiveSeparate | mm/heap.c:9-16 | live payloads are inside the heap, 8-aligned and pairwise disjoint |
| HeapProperties.FreeAllInAnyOrder | mm/heap.c:191-232 | freeing all live blocks in any order leaves one free block over the whole heap |
| HeapProperties.BytesAddUp | mm/heap.c:269-292 | used bytes, free bytes and 40 per block are the mapped span |
| HeapLayout.SplitLaid | mm/heap.c:52-70 | the stores of a split leave the headers of the split list and no live payload changed |
| HeapLayout.MergeLaid | mm/heap.c:206-229 | the stores of a merge leave the headers of the merged list and no live payload changed |
| HeapLayout.AppendLaid | mm/heap.c:104-119 | the stores of growth leave the headers of the longer list and no live payload changed |
| HeapLayout.PayloadWriteKeeps | mm/heap.c:9-16 | a client's write to its block changes no header and no other live payload |
| HeapLayout.LiveKeptMeans | mm/heap.c:9-16 | what "stays" means: each 8-byte word of a live payload, 40 bytes and more behind its header, is the same |
| HeapCalls.UnnamedIsLeftAlone | mm/heap.c:161-267 | no run of calls touches a block that none of them names by its address |
| Heap.KheapInit | mm/heap.c:134-159 | one free block over the first MiB; null only without free frames |
| Heap.KernelHeap.constructor | mm/heap.c:148-156 | the first header, start and tail |
| Heap.KernelHeap.InitHeader | mm/heap.c:55-59 | the five fields of a header, and no other word |
| Heap.KernelHeap.SplitBlock | mm/heap.c:52-70 | the linked headers become those of the block cut in two; live payloads stay |
| Heap.KernelHeap.FindSplitAndAlloc | mm/heap.c:39-78 | takes the first block that fits, or none exactly when none fits; the corruption panic is unreachable |
| Heap.KernelHeap.Absorb | mm/heap.c:206-229 | the right neighbour is absorbed, links, sizes and tail follow; live payloads stay |
| Heap.KernelHeap.AppendBlock | mm/heap.c:104-119 | a free block for the new pages is linked behind the tail |
| Heap.KernelHeap.HeapExpand | mm/heap.c:82-132 | the blocks are extended by whole pages, joined to a free tail; fails only without free frames |
| Heap.KernelHeap.Kmalloc | mm/heap.c:161-189 | null for 0; otherwise a new live block of at least `size` bytes, the one that `Malloc` gives, and all others as they were, word for word; when something fits, it succeeds and neither the heap grows nor a frame is taken; fails only without free frames |
| Heap.KernelHeap.Kfree | mm/heap.c:191-232 | the blocks are those of `Release`; every other live payload stays |
| Heap.KernelHeap.Move | mm/heap.c:260-266 | the whole old payload is in the new block, the old block is free, all other live payloads stay, even across a split or growth |
| Heap.KernelHeap.Krealloc | mm/heap.c:248-267 | all four cases: allocate, free, keep in place if the block is large enough, otherwise move with the whole old payload |
| Heap.KernelHeap.Kcalloc | mm/heap.c:234-246 | null exactly for a product of 0 or one that overflows, otherwise a block whose bytes are 0 |
| Heap.KernelHeap.ClientStore | mm/heap.c:9-16 | a client's write to its block changes one word and no other live payload |
| Heap.KernelHeap.Do | mm/heap.c:161-267 | each call, and each write of a client to its own block, has its effect on the blocks and keeps the payloads of all blocks it does not own |
| Heap.KernelHeap.Execute | mm/heap.c:161-267 | after any run of calls and writes the heap is the one the calls describe, and a live block that no call names is still there, word for word |
| Heap.KernelHeap.CountBytes | mm/heap.c:269-287 | the counting loop gives the used and free bytes, which with the headers are the mapped span |
| Context.FrameKept | kernel/sched.c:9-16 | a frame stays as long as its 22 words do |
| Context.NewContextIs | kernel/sched.c:68-75 | a new context: all 15 registers 0, RIP the entry point, CS 0x08, RFLAGS 0x202, RSP the stack top, SS 0x10 |
| Processors.Processor.PushRegisters | arch/idt_asm.s:139-153 | the 15 registers lie in memory in the order of `trapframe_t` |
| Processors.Processor.PopRegisters | arch/idt_asm.s:176-190 | exactly the 15 saved registers come back |
| Processors.Processor.Deliver | kernel/sched.c:15 | the processor's own delivery leaves the five return words of the frame on the 16-aligned stack, interrupts off |
| Processors.Processor.SaveFrame | arch/idt_asm.s:137-158 | a complete trap frame of the interrupted context, nothing else in memory changed |
| Processors.Processor.PrepareCall | arch/idt_asm.s:156-162 | the handler gets the interrupt number from the frame and the frame's address, on an aligned stack |
| Processors.Processor.RestoreFrame | arch/idt_asm.s:174-194 | exactly the context of the frame is back in the processor |
| Processors.FlagsRestored | kernel/sched.c:47-86 | `cli` and conditional `sti` give back the flags |
| Processors.InterruptFlag | kernel/sched.c:47-85 | interrupts are on exactly with bit 9 of RFLAGS |
| Scheduling.InterruptNumbers | arch/idt.c:179-190 | the timer is exactly interrupt 32; exactly 39 and 47 are spurious |
| Scheduling.RunnerChanges | kernel/sched.c:89-99 | the running thread changes only with interrupt 32, every tenth time, to the next one and its saved context; otherwise nothing does |
| Scheduling.NextIsGood | kernel/sched.c:79-100 | the list is always one cycle through every thread created, and exactly the others have a saved context |
| Scheduling.SavedIsKept | kernel/sched.c:89-100 | in the step function: while a thread is not switched in, nobody changes its saved context |
| Scheduling.Transparent | kernel/sched.c:89-100 | over any run of the step function, a thread resumes with the context it was interrupted in |
| Scheduling.FirstRun | kernel/sched.c:64-80 | over any run of the step function, a new thread first runs with all registers 0, RIP its entry point, CS 0x08, RFLAGS 0x202, RSP its stack top and SS 0x10 |
| Scheduling.SwitchesAreTurns | kernel/sched.c:89-100 | without creation, every tenth tick switches, in ring order |
| Scheduling.RoundRobin | kernel/sched.c:89-100 | any 10n consecutive ticks switch in each of n threads exactly once |
| Scheduling.WaitingBound | kernel/sched.c:79-100 | a thread d steps away that has not run has waited less than 10 (d + k) ticks with k threads created meanwhile |
| RunList.Scheduler.InitMain | kernel/sched.c:28-37 | the running code becomes a cycle of one thread |
| RunList.Scheduler.Insert | kernel/sched.c:79-80 | the new thread comes right after the running one, the cycle stays closed |
| RunList.Scheduler.Tick | kernel/sched.c:89-100 | 0 and nothing but the counter changed, or the list turned by one, the old stack pointer saved and the next one returned |
| Preemption.WaitingKept | arch/idt_asm.s:137-194 | frames of suspended threads survive all writes outside their stacks |
| Preemption.Machine.WriteFrame | kernel/sched.c:56-77 | the 22 words of the first frame, one by one: registers, number and error code 0, entry point, 0x08, 0x202, top of the stack of 8192 bytes, 0x10 |
| Preemption.Machine.CreateThread | kernel/sched.c:46-87 | the machine takes the creation step; no word outside the new stack changes; flags as before; the list has gained only a new node |
| Preemption.Machine.IrqHandler | arch/idt.c:178-202 | of the interrupts 32 to 47 only 32 turns the list, every tenth tick; all others leave list, stack pointers and ticks alone and return 0; all but 39 and 47 are acknowledged |
| Preemption.Machine.StubCall | arch/idt_asm.s:137-167 | when the handler returns, the frame is still there and the stack pointer is back on it |
| Preemption.Machine.Interrupt | arch/idt_asm.s:137-194 | the machine takes the scheduling step: the same context goes on, or the next thread's saved one, with room to be interrupted again; no word is lost, and no stack of another thread touched |
| Preemption.Machine.Work | arch/idt_asm.s:137-194 | whatever the running thread does, the others stay as they are |
| Preemption.Machine.Act | arch/idt_asm.s:137-194 | each allowed step, interrupt or creation is a step of `Scheduling`, keeps the stacks of all others, and an interrupt keeps the interrupted stack above the frame |
| Preemption.Machine.Play | arch/idt_asm.s:137-194 | any run of steps, interrupts and creations on disjoint stacks goes through the states of `Scheduling`; the stack of a thread that is not switched in stays the same word for word |
| Preemption.AllowedSplit | kernel/sched.c:46-100 | the second part of an allowed run is allowed after the first |
| Preemption.Machine.PlayBack | arch/idt_asm.s:137-194 | from any state until a suspended thread runs again, nobody touches its stack |
| Preemption.Machine.Preempt | arch/idt_asm.s:137-194 | on the machine, over any run: a preempted thread comes back with exactly its 15 registers, RIP, CS, RFLAGS, RSP and SS, and its stack as it was |
| Preemption.Machine.Start | kernel/sched.c:64-77 | on the machine, over any run: a new thread starts with RIP its entry point, all 15 registers 0, CS 0x08, RFLAGS 0x202, RSP the end of its 8192 bytes and SS 0x10 |
| CStrings.Strncpy | lib/string.c:37-46 | the string is copied up to n bytes, reading no further than its NUL; byte n becomes NUL exactly if the string is shorter; nothing behind is touched |
| CStrings.Strcmp | lib/string.c:11-17 | 0 exactly for equal strings |
| Vfs.FileList.Register | fs/vfs.c:13-28 | the new file comes first, with the name up to 127 bytes, size, kind and data address |
| Vfs.FileList.Open | fs/vfs.c:30-39 | the newest node of that name, or null exactly when there is none |
| Vfs.Read | fs/vfs.c:41-50 | exactly the bytes of the content from the offset on that fit; 0 for directories, null, and at the end |
| Vfs.ChunksConcatenate | fs/vfs.c:41-50 | successive reads of any sizes concatenate to the content |
| Tar.OctalToInt | fs/tar.c:28-36 | the value of the octal digits among the bytes |
| Tar.OctalWeight | fs/tar.c:28-36 | the first digit weighs a power of 8 |
| Tar.OctalSkips | fs/tar.c:28-36 | what is no octal digit is skipped |
| Tar.OctalRoundTrip | fs/tar.c:28-36 | every size below 8^11 reads back from its 11 digits |
| Tar.PaddedRoundsUp | fs/tar.c:61-64 | padding rounds up to whole blocks |
| Tar.TarInit | fs/tar.c:38-67 | terminates and registers exactly what the parser finds, in reverse order, or says that the archive runs off memory |
| Tar.NameIsRead | fs/tar.c:58-59 | the registered name is the member's exactly if a NUL follows it: always up to 99 bytes |
| Tar.FullNameIsMisread | fs/tar.c:58-59 | a member whose name of 100 letters is registered differently |
| Tar.RoundTrip | fs/tar.c:38-67 | loading an encoded archive finds exactly its members with names, kinds, sizes and contents |
| Tar.LastOneWins | fs/vfs.c:30-39 | opening finds the last member of a name, or nothing exactly when there is none |
| Tar.ContentIsRead | fs/vfs.c:41-50 | reading an opened file in chunks gives the member's content |
| Numbers.NumeralReadsBack | lib/string.c:138-144 | the numeral reads back to the value, in every base |
| Numbers.DigitsAre | lib/string.c:138-144 | the digits are 0 to 9 and the letters from a, or from A for upper case |
| Numbers.NumeralIsCanonical | lib/string.c:138-144 | only digits, no leading zero |
| Numbers.NumeralIsUnique | lib/string.c:138-144 | there is no other canonical numeral of the value |
| Numbers.ReverseInPlace | lib/string.c:148-154 | the text is turned around in place |
| Numbers.Utoa | lib/string.c:129-155 | the buffer holds the canonical numeral and a NUL, nothing behind is written; empty for a bad base |
| Numbers.Itoa | lib/string.c:88-126 | the buffer holds what the truncating digit loop gives, with sign in base 10 |
| Numbers.ItoaIsRight | lib/string.c:88-126 | that is the signed numeral exactly for nonnegative values and, in base 10, all but the minimum |
| Numbers.ItoaIsWrong | lib/string.c:88-126 | the minimum in base 10 and -1 in base 16 are printed wrong |
| Numbers.ItoaHex | lib/string.c:158-179 | scanning nibbles from the top gives the numeral in base 16, the same as `utoa` in lower case |
| Numbers.BufferIsEnough | lib/printk.c:9-18 | 65 bytes are enough for every value and base, and the largest value in base 2 needs all of them |
| Terminal.BackspaceUndoes | display/terminal.c:162-171 | a backspace takes back the character printed before it |
| Terminal.NothingLost | display/terminal.c:212-231 | wrapping at the screen width loses, repeats and reorders no character |
| Terminal.ControlCharacters | display/terminal.c:191-209 | 10 adds an empty line in column 0, 13 only goes to column 0, 8 in column 0 does nothing |
| Terminal.PlainCharacters | display/terminal.c:212-231 | any other character is stored in its column, and a full line is followed by an empty one |
| Terminal.Backspaced | display/terminal.c:162-171 | 8 erases the character before the cursor |
| Terminal.Screen.constructor | display/terminal.c:23-43 | one empty line |
| Terminal.Screen.AddNewLine | display/terminal.c:71-85 | the ring holds the last min(20, n) lines of the log with one more line |
| Terminal.Screen.Backspace | display/terminal.c:162-171 | ring and cursor follow the log |
| Terminal.Screen.PutChar | display/terminal.c:180-240 | ring and cursor follow the log for every character: 10 begins a line, 13 goes to column 0, 8 takes one back, any other one is stored and wraps at the screen width |
| Terminal.Screen.Clear | display/terminal.c:248-257 | one empty line, not scrolled |
| Terminal.Screen.ScrollUp | display/terminal.c:136-142 | one line up exactly while an older line is above the window; the window is redrawn exactly if it moved |
| Terminal.Screen.ScrollDown | display/terminal.c:144-149 | one line down unless at the bottom; the window is redrawn exactly if it moved, and at the bottom the newest line is then in the row in which the next character is drawn |
| Terminal.Screen.ScrollToBottom | display/terminal.c:151-156 | to the bottom, redrawn exactly if not there already, with the newest line in the row in which the next character is drawn |
| Terminal.Screen.Redraw | display/terminal.c:88-114 | row by row, the texts drawn are those of the newest lines ending `scroll_offset` lines above the last one; nothing underflows, the correction and the loop guards never apply |
| Terminal.Screen.DrawnWhereShown | display/terminal.c:196-222 | at the bottom, the row of the next character is that of the newest line in the window exactly with at most 20 rows or 20 lines, which covers every screen that is ever redrawn |
| Terminal.Screen.NothingToScroll | display/terminal.c:136-142 | with 20 or more rows the view is always at the bottom |
| Keyboard.AcceptKeeps | drivers/keyboard.c:167-173 | adding a character keeps the order of all that are pending |
| Keyboard.TakeKeeps | drivers/keyboard.c:210-214 | the slot at the tail holds the oldest pending character, and moving the tail removes just that one |
| Keyboard.Ring.Accept | drivers/keyboard.c:167-173 | a character is dropped only if 255 are pending |
| Keyboard.Ring.Interrupt | drivers/keyboard.c:176-204 | one run of the handler adds the first characters typed that fit |
| Keyboard.Ring.GetChar | drivers/keyboard.c:210-214 | interrupted before and after every access: the next character in order, or 0 only if there was none |
| Keyboard.Ring.GetChars | drivers/keyboard.c:210-214 | any number of calls so interrupted return what was accepted, in order, nothing twice and nothing left out |
| MainLoop.Kernel.Execute | kernel.c:166-178 | each instruction of the loop, on the real ring, is the step of the protocol |
| MainLoop.Kernel.Raise | drivers/keyboard.c:176-204 | the handler runs only when interrupts are on and not delayed, drains the device into the ring and wakes a sleeping loop |
| MainLoop.Kernel.Play | kernel.c:166-178 | any interleaving of loop, keys and interrupts goes through the states of the protocol |
| MainLoop.NoLostWakeup | kernel.c:166-178 | in every interleaving the loop never sleeps over a pending character, exactly because `sti` is delayed |
| MainLoop.UnlessDelayed | kernel.c:176 | without the delay a concrete run sleeps over a key |
| MainLoop.Wakes | kernel.c:166-178 | asleep, an interrupt is always delivered and the loop goes on with what was typed |
| MainLoop.KeyIsReturned | kernel.c:166-178 | a key that interrupts an idle loop is returned next, within 6 instructions |
| MainLoop.InOrder | kernel.c:166-178 | characters come out in the order accepted, none twice and none left out |
| MainLoop.SoonRead | kernel.c:166-178 | a pending character is read within 6 instructions of the loop, whatever interrupts come between |
| Spinlocks.Machine.AcquireStep | lib/spinlock.c:11-22 | save and disable, test and set, and the store of the flags are the steps of the protocol |
| Spinlocks.Machine.ReleaseStep | lib/spinlock.c:24-29 | read the flags, clear the lock, restore are the steps of the protocol |
| Spinlocks.Machine.Play | lib/spinlock.c:11-29 | any interleaving of any number of processors goes through the states of the protocol |
| Spinlocks.NextIsGood | lib/spinlock.c:11-29 | every step of every processor keeps: one holder at most, interrupts off inside, flags in the lock those of the holder |
| Spinlocks.MutualExclusion | lib/spinlock.c:11-29 | in every interleaving at most one processor holds the lock, with interrupts off, and a locked lock has a holder |
| Spinlocks.WrittenByHolder | lib/spinlock.c:20-21 | only the holder writes the flags stored in the lock |
| Spinlocks.FlagsComeBack | lib/spinlock.c:24-29 | a release gives back exactly the flags from before the acquire, whatever the others do |
| Spinlocks.TakesFreeLock | lib/spinlock.c:16-18 | a spinning processor that steps takes a free lock and waits for a locked one |
| Spinlocks.AcquiredInThree | lib/spinlock.c:11-22 | with the lock free, a processor has it after two steps and has stored its flags after three |
| Spinlocks.ReleasedInThree | lib/spinlock.c:24-29 | the holder is outside after three steps of its release, whatever the others do in between |
| Spinlocks.SecondReleaseFrees | lib/spinlock.c:26 | the second step of a release leaves the lock free |

## Left out

- Vmm.Init: does not copy the higher half of the boot loader's PML4 and does not switch CR3; the tables start empty.
- PageTables.TranslationIsLookup: large pages are in the walk, but no address space contains one, because `vmm_map` makes none.
- Pmm.Allocator.FreePage: takes pages the allocator manages; the code would also free reserved pages whose bit is set.
- Pmm.Allocator.FreePages: takes runs in use; the code adjusts its counters even for pages that are free or out of range.
- Heap.KernelHeap.Kmalloc: takes sizes up to MAX_REQUEST, where no addition wraps; `HeapProperties.GrantCoversRequest` and `HeapBlocks.GrowthDoesNotWrap` say what goes wrong above.
- Heap.KernelHeap.HeapExpand: takes sizes up to MAX_REQUEST, for the same reason.
- Heap.KernelHeap.Kcalloc: takes products up to MAX_REQUEST or above 2^64, for the same reason.
- Heap.KernelHeap.Krealloc: takes null or the payload of a live block, and sizes up to MAX_REQUEST.
- Heap.KernelHeap.Kfree: takes null or the payload of a live block; a double free is not detected by the code.
- Heap.KernelHeap.Move: takes sizes up to MAX_REQUEST, and copies whole words; the byte loop of `memcpy` is not modelled, sizes are multiples of 8.
- Heap.KernelHeap.Absorb: one method for the three places in the source that merge two blocks.
- Preemption.Machine.Interrupt: takes a stack with room for the frame; stack overflow is not modelled.
- Preemption.Machine.IrqHandler: what the timer and keyboard handlers do appears only as memory they write.
- Preemption.Machine.CreateThread: takes the block that `kmalloc` returned as a parameter; a thread function that returns is not modelled.
- Scheduling.WaitingBound: the tick counter is unbounded, its wrap after 2^64 ticks is not modelled.
- Vfs.FileList.Register: a node's 128 name bytes are a sequence that is assigned once, not an array of its own.
- Terminal.Screen.Backspace: draws nothing, like `Terminal.Screen.PutChar`.
- Terminal.Screen.PutChar: draws nothing; pixels, colours, `hardware_scroll` and the framebuffer are not part of this model.
- Keyboard.Ring.Interrupt: starts from the characters typed; status bits and discarded bytes of the controller are not part of this model.
- Keyboard.Ring.Accept: starts from the character; scancode tables, modifier keys and LEDs are not part of this model.
- MainLoop.Kernel.Execute: `keyboard_get_char` is one instruction here; `Keyboard.Ring.GetChar` and `Keyboard.Ring.GetChars` have the interrupts between its accesses. What `shell_process_char` and `fb_swap` do is not part of this model.
- Spinlocks.MutualExclusion: memory is sequentially consistent; the lock's debug fields are left out.
- The lock around the heap's operations is not woven into `Heap`; `Spinlocks` is its proof.
- TLB flushes: translations are always those of the tables in memory.
- Hardware setup, device registers, ACPI, PCI, fonts, images, the shell and `printk` formatting are not part of this model.
