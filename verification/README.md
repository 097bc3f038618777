# Verified model of the FOS kernel's memory and scheduling logic

FOS is a small teaching kernel. This project models the parts of it that keep state across
many functions, and proves what each of them is for:

- **Demand paging** (`trap.c`, `memory_manager.c`): the modified clock, write-back, eviction,
  placement, the working-set array, `freeMem`, and the fault handler that ties them together.
  The main result is that paging is invisible: over any interleaving of table faults, page
  faults, reads, writes, heap system calls, clock ticks and the deeds of other environments,
  every read returns what a memory without paging would hold (`Execution.RunIsFlat`).
- **Two-level page tables** (`kern/memory_manager.c`): directory and tables live in the very
  frames the free list hands out. Over any run they implement a flat map, and reference counts
  are conserved (`PageTables.RunRefines`); the words in memory, permission bits included, are
  those of the code (`PageTables.MapWords`, `UnmapWords`).
- **Frame prediction** (`memory_manager.c`): `calculate_required_frames` is exact
  (`RequiredFrames.RequiredIsExact`).
- **Kernel heap** (`kheap.c`): next fit, best fit, block metadata and address translation; over
  any run the page table records exactly the live blocks (`KernelHeapRuns.RunMirrors`).
- **User heap** (`uheap.c`): over any run of malloc, free, faults and accesses the table lists
  the live blocks, and the page file holds exactly their pages (`UserHeapRuns.RunAgrees`).
- **Scheduler** (`sched.c`): the multi-level feedback queue loses nobody, starves nobody
  (`Scheduler.NoStarvation`, `NoStarvationFromAnywhere`) and is first in, first out at every
  level (`FirstInFirstOut`), and over any run every time stamp encodes the reference history
  of its page (`StampRuns.RunEncodes`).
- **Symbol search** (`kern/kdebug.c`): exactly when it brackets its address
  (`StabSearch.SearchExact`).
- **Environment ids** (`kern/user_environment.c`, `kern/helpers.c`): exactly when two ids are
  equal, and which one an id resolves to (`EnvIds.SameId`, `EnvIds.EnvTable.EnvId2Env`).

## How it is built

Code that changes state is a class whose methods have the loops and branches of the C code
(`Machine`, `Mmu`, `Allocator`, `Process`, `ReadyQueues`, `EnvTable`). Nearly every such method
states its whole new state as a function of the old one (`S() == Evict(old(S()), v)`), besides
what becomes of its fields in direct terms, and the lemmas about those functions are the
properties; the methods of `EnvTable` state their fields one by one. Read-only searches are
methods proved equal to a function or relation that has its own lemmas.

| module | models |
|---|---|
| `Common` | machine constants, options, the kernel's lists |
| `MemoryState`, `Paging`, `Freeing` | the memory behind one environment; eviction and placement; `freeMem` |
| `MemoryManager` | class `Machine`: frames, tables, page file, working set |
| `Clock`, `Trap`, `Execution` | the clock; the page-fault handler; the fault handler and whole runs |
| `RequiredFrames` | the frame prediction |
| `Ageing`, `StampRuns` | time stamps; their histories over runs |
| `PageTables` | class `Mmu`: two-level tables whose tables are frames |
| `HeapSearch` | next fit and best fit, shared by both heaps |
| `LiveBlocks` | the plain record of a heap's live blocks |
| `KernelHeap`, `KernelHeapRuns` | class `Allocator`; runs of `kmalloc` and `kfree` |
| `UserHeap`, `UserHeapRuns` | class `Process`: the user heap over a `Machine`; runs of a process |
| `Scheduler` | class `ReadyQueues`: round robin and MLFQ |
| `StabSearch`, `EnvIds` | the symbol search; class `EnvTable` |

Addresses are page numbers (`Page`) wherever the code works in whole pages, and byte addresses
where rounding or wrap-around matters. Heap bounds, the number of environments, working-set
size, stack bounds and page-file capacity are symbolic. A kernel panic is a distinct result.

## Where the code is narrower than its comments

- `stab_binsearch` (kern/kdebug.c:39-43) promises two things. That left > right means that the
  address is in no entry is true on every table (`StabSearch.NotContainedSignal`). That left
  points to the entry containing the address fails without an entry at or below it, and where
  an exact hit spoils the answer. An exact hit raises the target by four; the answer is then
  right if and only if the part of the region still open at the first hit has no entry of the
  kind within that word, up to one case in which the target wraps round at the top of the
  address space (`SearchExact`). So an entry within a word of the address may spoil the answer
  (`HitMaySpoil`, for every address and gap) or be passed by the halving in time
  (`HalvingMaySave`), and in the last word of the address space a hit always spoils it
  (`TopHitSpoils`).
- `bestFit` (kheap.c:94, uheap.c:109) decides failure by the run at the end of the heap, not by
  the best run: it can refuse a request for which there is room (`HeapSearch.BestFitIntended`,
  `BestFitRefusesRoom`).
- `nextFit` never joins free pages across the hint (`LongRunSuffices`, `ShorterRunMayFail`).
- `kheap_virtual_address` (kheap.c:179) stops at the end of the most recent allocation
  (`KernelHeap.PhysicalInverts`, `PageBeyondLast`).
- `modifiedClock` never returns if the clock hand, which all environments share, exceeds the
  working-set size (`Clock.HandPastTheEnd`). `page_fault_handler` leaves it inside the working
  set of its own environment, but it can outgrow a smaller one (`Trap.HandOutgrows`, with such
  a fault in `Trap.SharedHandHangs`).
- The queue a process re-enters is stale after an exit followed by a pick from the bottom queue
  (`Scheduler.StaleAfterExit`, with a history that gets there in `StaleHistory`). It
  costs the others no more than the levels it gives back (`NoStarvationFromAnywhere`). The index
  also survives a re-initialisation, where it can name a queue that is no longer there
  (`ReinitialisedHistory`).
- `free` of an address inside a block clears pages beyond the block and breaks the table
  (`UserHeap.FreeOnlyFromStart`; `FreeInside` for every block of two or more pages, with a table
  in `FreeSecondPage`).
- `allocateMem` looks at the last answer of the page file only, which hides the refusal of an
  earlier page exactly when the file held the last page and had no room for the rest
  (`MemoryState.HiddenRefusal`, with such a file in `RefusalHidden`). malloc asks for new pages
  only, where the last answer speaks for all (`UserHeap.GrantAnswer`).
- `freeMem` with a size that is not a page multiple unmaps one page more than it removes from
  the page file (`Freeing.FreedExact`, where the two sizes are `down` and `up`). That page falls
  back to its page-file copy, so the program's writes since are lost (`Freeing.FreedTail`,
  with such a memory in `LostWrite`).
- `calculate_required_frames` for a size of 0 counts the table and the page in which an
  unaligned range starts (`RequiredFrames.CalculateRequiredFrames`).

## Model

| member | source | states |
|---|---|---|
| Execution.RunIsFlat | memory_manager.c:756-855 | over any run of table faults, page faults, accesses, allocateMem, freeMem, clock ticks and deeds of other environments on the shared frames and hand, the memory invariant holds in every state, the program owns exactly the pages of the flat memory, and every read returns the flat memory's content |
| Execution.EventShows | trap.c:391-421 | each single event, the page fault being what the handler does, keeps the invariant and is matched by its step of the flat memory |
| Execution.PageFaultShows | trap.c:571-594 | clock, eviction and placement as the handler performs them change the flat memory at most by a stack page without content |
| Execution.FreeMemShows | memory_manager.c:835-855 | for any size in bytes, freeing removes exactly the whole pages of its range from the flat memory and leaves at most its last page without a defined content |
| Execution.AllocateMemShows | memory_manager.c:756-774 | for any size in bytes, allocating makes exactly its range cleared, pages that the file already held included |
| Execution.TickShows | sched.c:665-693 | a clock tick keeps the invariant and shows in no page |
| Execution.DeedShows | memory_manager.c:419-472 | another environment taking, freeing or writing a frame, or moving the hand, keeps this one's invariant and shows in none of its pages |
| Execution.NewTableReady | memory_manager.c:553-576 | a new page table takes a free frame and keeps the invariant |
| Execution.NewTableShows | memory_manager.c:553-576 | a new page table shows in no page |
| Execution.StoredShows | memory_manager.c:600-635 | a write through one page's frame shows in that page only, because no frame backs two pages |
| Execution.ReadIsRight | trap.c:548-549 | the frame of a resident page holds what the flat memory holds there |
| Execution.FaultHandler | trap.c:363-446 | the stack panics come exactly for a user access at or above the stack's top and for a kernel access between the user limit and the kernel stack's floor, and change nothing; otherwise a missing table is made if a frame is left, and with the table there the page fault is served or fails exactly as its guards say; both successes are events of a run |
| Execution.TableHappens | memory_manager.c:553-576 | a table made on a fault is an event of a run and adds just that table |
| Execution.FaultHappens | trap.c:411-421 | a fault served by the page-fault handler with page-file room is an event of a run |
| Paging.FaultTransparent | trap.c:571-594 | a successful fault keeps the invariant, makes the page resident, evicts at most the victim, and changes the logical content of no backed page |
| Paging.FaultKeeps | trap.c:526-594 | frames, reference counts, write-back state and the compact working set survive a fault |
| Paging.EvictTransparent | trap.c:526-540 | writing back before unmapping changes no page's logical content |
| Paging.EvictLeaves | trap.c:526-540 | eviction leaves exactly the victim's slot vacant and everything else in order |
| Paging.PlaceTransparent | trap.c:542-567 | loading a page into a free frame changes no other page's content |
| Paging.PlaceKeeps | trap.c:542-567 | after placement the working set names exactly the resident pages and is compact again |
| Paging.VictimFrameReused | trap.c:526-548 | on a full working set the faulting page receives the very frame the victim gave up |
| Paging.NotFullVacant | trap.c:588-588 | on a working set with room the slot at page_last_WS_index is vacant, so no live entry is overwritten |
| Trap.PageFaultHandler | trap.c:571-594 | when it succeeds it has done clock, eviction and placement as Handled says, field by field as HandledExact states, used bits included, and the fault is served; it fails exactly without a frame, without page-file room, or on an access outside page file and stack |
| Trap.HandledServed | trap.c:571-594 | what the handler does on any memory in order serves the fault: invariant, contents, residents, working set and victim, and the hand is the slot after the victim |
| Trap.HandledExact | trap.c:526-594 | field by field: the frame used is the victim's or the head of the free list, only the victim's slot changes, the new entry is clean, hand and last index are the slot after it, the victim is written back exactly if modified, and the frame is loaded exactly if a copy exists |
| Trap.HandOutgrows | trap.c:538-539 | the hand left by a fault lies past another environment's smaller working set exactly when the victim's slot does and is not the last of its own, and that environment's search then never ends |
| Trap.SharedHandHangs | trap.c:448-451 | a memory in order and a fault after which the search of an environment with one slot never ends |
| Trap.ServedFull | trap.c:580-590 | clock, eviction and placement together serve the fault on a full working set, whatever used bits the clock cleared |
| Trap.ServedSpare | trap.c:588-590 | placement at page_last_WS_index serves the fault on a working set with room |
| Trap.PageReplacement | trap.c:526-540 | only the victim's slot is vacated and only its page unmapped; its copy is rewritten exactly if it was modified; its frame becomes the head of the free list; hand and last index move to the slot after the last index |
| Trap.PagePlacement | trap.c:542-567 | on success the page is mapped to the head of the free list with clean bits, its slot carries the newest stamp, its frame holds the copy if there is one, and a page without a copy gets an empty one; the three failures, of which an invalid access leaves no trace |
| Trap.LinkUndone | trap.c:556-560 | unmapping a page just mapped into a fresh frame restores the whole state |
| Trap.ModifiedClock | trap.c:507-523 | terminates, returns the slot least in (2 * used + modified, distance from the hand), sets the hand past it, and clears exactly the used bits that the victim's class allows |
| Trap.ClockTurn | trap.c:510-522 | one turn of the endless loop: first try, then second try on what it left |
| Trap.GetVictimIndex | trap.c:466-489 | the first slot of the wanted class in the range or -1, with the used bits of the slots passed on the second try |
| Trap.TrySlot | trap.c:471-486 | what looking at one slot decides and changes |
| Trap.UsedKeeps | trap.c:484-484 | clearing used bits harms neither the invariant nor any content |
| Clock.TwoRoundsSuffice | trap.c:507-523 | two turns of the loop always find the preferred victim and age the bits exactly |
| Clock.FirstSweep | trap.c:511-515 | the first try finds the nearest (0,0) slot or shows there is none |
| Clock.SecondSweep | trap.c:517-521 | the second try finds the nearest (0,1) slot, clearing the used bits before it, or clears them all |
| Clock.ScanFinds | trap.c:469-488 | a scan stops at the first slot of its class |
| Clock.HandPastTheEnd | trap.c:449-451 | with k >= 2 turns a victim is found if and only if the hand lies within the working set; beyond it the loop changes nothing for ever |
| MemoryState.ReservedInRoom | memory_manager.c:756-774 | with room for all, every page of the range ends up with a cleared copy and no other copy changes |
| MemoryState.RoomForAll | memory_manager.c:766-770 | there is room whenever as many copies are free as the range has pages |
| MemoryState.LastAnswer | memory_manager.c:766-773 | for every file and range the last answer is a success exactly when the file held the last page or had room for the whole range |
| MemoryState.HiddenRefusal | memory_manager.c:766-773 | the last answer hides a refusal exactly when the file held the last page but had no room for the rest |
| MemoryState.RefusalHidden | memory_manager.c:766-773 | a full file in which that happens |
| MemoryState.ReservedFills | memory_manager.c:766-770 | the pages of the range are added in order until the file is full |
| MemoryState.ReservedZeroed | memory_manager.c:766-770 | whatever copies the file gains lie in the range and are zero |
| MemoryState.ReservedKeeps | memory_manager.c:756-774 | allocating pages that are not resident keeps everything in order and shows in no page outside the range |
| MemoryState.TakeKeeps | memory_manager.c:419-445 | the frame taken belongs to nobody and is off the list |
| MemoryState.LinkKeeps | memory_manager.c:631-632 | mapping a held frame gives it one reference and one owner |
| MemoryState.NewTableKeeps | memory_manager.c:553-576 | a new table is a frame of its own |
| MemoryState.UnmapKeeps | memory_manager.c:678-691 | unmapping returns the page's frame, and only it, to the list |
| MemoryState.DropTableKeeps | memory_manager.c:824-827 | giving a table back returns its frame to the list |
| MemoryState.NamesWith | memory_manager.c:1005-1015 | filling a vacant slot adds one name to the working set |
| MemoryState.NamesWithout | memory_manager.c:1017-1023 | vacating a slot removes one name |
| MemoryState.InBytes | memory_manager.c:793-793 | the byte-range test selects exactly the whole pages of the range rounded up |
| Freeing.FreedExact | memory_manager.c:777-855 | no page of the range is mapped or in the page file; all others are untouched; the surviving entries are exactly those outside the range and keep the order of their slots, moved together from slot 0, with page_last_WS_index at their end; exactly the emptied tables go; freed frames, mappings and tables are conserved |
| Freeing.FreedOrder | memory_manager.c:784-834 | the frames given up lie on the free list in this order: emptied tables, highest first; pages, last slot first; then what was there |
| Freeing.FreedTransparent | memory_manager.c:835-855 | what the program sees outside the range is unchanged |
| Freeing.FreedTail | memory_manager.c:850-852 | the last page of a size that is no page multiple falls back to its copy, and its content changes if and only if it was resident and modified with a content unlike the copy |
| Freeing.LostWrite | memory_manager.c:850-852 | a memory in order whose program loses a write to freeMem of one byte |
| Freeing.FreedBytesTransparent | memory_manager.c:835-855 | for any size in bytes, what the program sees outside the whole pages of the range changes exactly in that one case, hence never for a page multiple |
| Freeing.ReleaseExact | memory_manager.c:784-807 | the resident pages of the range are unmapped and the rest moved together into a compact prefix |
| Freeing.PackedNames | memory_manager.c:789-805 | packing keeps exactly the entries outside the range, each once |
| Freeing.StayingOrder | memory_manager.c:797-805 | of two surviving entries the one from the earlier slot comes first |
| Freeing.PackedStable | memory_manager.c:797-806 | the entries outside the range, and only they, keep the order of their slots, each unchanged |
| Freeing.PackedCompact | memory_manager.c:801-806 | the occupied slots are a prefix and page_last_WS_index is its end |
| Freeing.UnmapLeavingExact | memory_manager.c:789-796 | visiting the slots unmaps exactly the resident pages of the range |
| Freeing.LeavingOrder | memory_manager.c:789-796 | the frames of the leaving pages are pushed on the free list in the order of their slots |
| Freeing.DropEmptyTablesExact | memory_manager.c:808-834 | a table goes if and only if a page of the range lies in it and all its entries are zero |
| Freeing.TablesOrder | memory_manager.c:808-834 | the frames of emptied tables are pushed in the order of their tables, each once |
| Freeing.DropEmptyTablesKeeps | memory_manager.c:808-834 | each dropped table yields exactly one free frame, so none is dropped twice |
| MemoryManager.Machine.constructor | memory_manager.c:327-388 | boot keeps exactly frames 0 to 2, the I/O hole and the boot data, lists every other frame once, the highest first, and establishes the invariant |
| MemoryManager.Machine.AllocateFrame | memory_manager.c:419-445 | the head of the free list, cleared of references, or the panic exactly on an empty list; nothing else changes |
| MemoryManager.Machine.FreeFrame | memory_manager.c:451-462 | the frame becomes the head of the free list |
| MemoryManager.Machine.DecrementReferences | memory_manager.c:468-472 | one reference less; on the last the frame becomes the head of the free list |
| MemoryManager.Machine.CreatePageTable | memory_manager.c:553-576 | the directory entry names the head of the free list with one reference; fails without change exactly on an empty list |
| MemoryManager.Machine.GetFrameInfo | memory_manager.c:647-661 | the frame of a mapped page, else none |
| MemoryManager.Machine.UnmapFrame | memory_manager.c:678-691 | exactly that page goes, with one reference of its frame, which on the last becomes the head of the free list |
| MemoryManager.Machine.MapFrame | memory_manager.c:600-635 | makes the table on demand; the page ends up mapped to the frame with clean bits and one reference more, another frame mapped there loses one and is freed on its last, and the same frame is left alone; no other page changes |
| MemoryManager.Machine.AllocateMem | memory_manager.c:756-774 | the loop adds the pages in order, what the file gains is in the range and zero, and the answer is a success exactly when the file held the last page or had room for all |
| MemoryManager.Machine.FreeResidentPagesInTheWorkingSet | memory_manager.c:784-807 | the two loops over the array unmap the resident pages of the range and pack the others in their order, as the lemmas above describe |
| MemoryManager.Machine.RemoveEmptyNonUsedPages | memory_manager.c:808-834 | the table loop with its 1024-entry scan |
| MemoryManager.Machine.IsTableEmpty | memory_manager.c:814-822 | the scan answers whether no page of the table is mapped |
| MemoryManager.Machine.FreeMem | memory_manager.c:835-855 | a page stays mapped exactly if its address is outside the byte range, a copy stays exactly if its page is outside the whole pages of it, what stays is unchanged, the surviving slots keep their order, and the invariant holds again |
| MemoryManager.FreedRange | memory_manager.c:793-855 | in terms of addresses: which entries and which copies remain for a size in bytes |
| MemoryManager.Machine.WsGetSize | memory_manager.c:985-990 | the number of occupied slots, which is the capacity exactly when all are occupied |
| MemoryManager.Machine.WsSetEntry | memory_manager.c:1005-1015 | the slot holds the page with the newest stamp |
| MemoryManager.Machine.WsClearEntry | memory_manager.c:1017-1023 | the slot is vacant, its page and stamp zero, and nothing else changes |
| RequiredFrames.RequiredIsExact | memory_manager.c:897-933 | given as many free frames as predicted, mapping the whole range succeeds, covers exactly the range, keeps old mappings, and uses up exactly that many frames |
| RequiredFrames.MapOneCost | memory_manager.c:600-635 | mapping one page costs one frame if it is unmapped and one more if its table is missing |
| RequiredFrames.RequiredStep | memory_manager.c:897-933 | one page more adds just its own cost: a table met before is not counted again |
| RequiredFrames.SpanBounds | memory_manager.c:904-914 | stepping by 4 MB from the rounded-down start meets exactly the tables of the range |
| RequiredFrames.CalculateRequiredFrames | memory_manager.c:897-933 | the two loops return the missing tables plus the unmapped pages, and for a size of 0 at most one of each |
| RequiredFrames.CountTables | memory_manager.c:904-915 | counts each missing table of the range once |
| RequiredFrames.CountPages | memory_manager.c:917-929 | counts each unmapped page of the range once |
| Ageing.StampAfterRecords | sched.c:665-693 | after any updates the stamp is the encoding of the reference history, insertion counting as a reference |
| Ageing.AgeRecords | sched.c:682-690 | one update turns the stamp of a history into the stamp of the longer history |
| Ageing.OddBitsOnly | sched.c:684-684 | a stamp has bits only at odd positions, bit 2i + 1 telling whether update 15 - i saw a reference |
| Ageing.StampOrder | sched.c:665-693 | comparing stamps as numbers is comparing the last 16 reference bits newest first |
| Ageing.UpdateWsTimeStamps | sched.c:665-693 | every occupied slot's stamp is shifted by two places and gains its top bit if its page was used, all used bits end up clear, nothing else changes, and the memory stays in order |
| Ageing.TickedKeeps | sched.c:665-693 | a tick harms neither the invariant nor any content |
| Ageing.TickedExact | sched.c:673-691 | every occupied slot's stamp becomes stamp / 4, plus 0x80000000 exactly if its page was used, and every used bit is taken |
| StampRuns.RunStamps | sched.c:665-693 | at every point of any run every occupied slot carries the stamp of its page's own history |
| StampRuns.RunEncodes | sched.c:665-693 | at every point of any run that stamp is the encoding of what the ticks have seen of the page since it was brought in, insertion counting as a reference |
| StampRuns.EventStamps | sched.c:665-693 | ticks, faults, freeing and every other event keep each stamp with its page's history |
| StampRuns.FaultStamps | memory_manager.c:1005-1015 | the newcomer's stamp is that of an empty history and no other slot is disturbed |
| StampRuns.FreedStamps | memory_manager.c:801-806 | packing moves every entry with its stamp |
| StampRuns.TickStamps | sched.c:673-691 | one tick extends the history of every resident page by its used bit |
| PageTables.RunRefines | kern/memory_manager.c:324-503 | over any run of allocate, free, map and unmap the tables implement the flat map; each count is boot pins plus entries naming the frame; a frame is free exactly when its count is 0 and nobody holds it |
| PageTables.StepRefines | kern/memory_manager.c:324-503 | each operation keeps the invariant and does to the flat map what its name says |
| PageTables.StepSeparate | kern/memory_manager.c:324-503 | while neither the directory nor a table is mapped as data, tables, mapped frames and free frames are pairwise disjoint and stay so |
| PageTables.UserCounts | kern/memory_manager.c:436-446 | replacing one entry changes only the number of users of the frames named before and after |
| PageTables.MapFrameRefines | kern/memory_manager.c:426-451 | for any frame not on the free list, tables and directory included, the page translates to it and no other translation changes, whatever was mapped there; fails exactly when a table is needed and no frame is left |
| PageTables.UnmapRefines | kern/memory_manager.c:492-503 | exactly one page leaves the map |
| PageTables.WithTableKeeps | kern/memory_manager.c:372-407 | on-demand table creation changes no translation and keeps every mappable frame mappable |
| PageTables.AddTableExact | kern/memory_manager.c:391-398 | zeroing a frame and entering it as a table changes no entry of any page |
| PageTables.WriteEntryExact | kern/memory_manager.c:446-446 | writing one word changes one page's entry, because tables are frames of their own and are not shared |
| PageTables.ConstructWord | kern/memory_manager.c:446-446 | an entry is the frame's address with perm and the present bit in the low 12 bits |
| PageTables.MapWords | kern/memory_manager.c:426-451 | after mapping, the word the processor finds for the page has the frame above and perm with the present bit below, or is unchanged for the same frame; the words of all other pages and of the other tables are unchanged; a new table's word ends in 7 |
| PageTables.UnmapWords | kern/memory_manager.c:492-503 | after unmapping, the word of the page is 0 and all other words are unchanged |
| PageTables.WithTableWords | kern/memory_manager.c:383-398 | a new table changes one directory word, to the frame with the low bits 7, and the word of no page |
| PageTables.MapRefs | kern/memory_manager.c:426-451 | the mapped frame gains one reference, a frame replaced loses one and is freed on its last, a new table takes the head of the free list with one |
| PageTables.UnmapRefs | kern/memory_manager.c:492-503 | the frame that was mapped loses one reference and on the last becomes the head of the free list; no other count changes |
| PageTables.WithTableRefs | kern/memory_manager.c:383-398 | a table made on demand costs the head of the free list and nothing else |
| PageTables.WriteEntryKeeps | kern/memory_manager.c:436-446 | tables stay distinct frames apart from the directory, whatever frame the entry names |
| PageTables.CountedAfterPut | kern/memory_manager.c:445-446 | counts stay conserved when an entry is set |
| PageTables.CountedAfterClear | kern/memory_manager.c:499-500 | counts stay conserved when an entry is cleared |
| PageTables.MakeTableKeeps | kern/memory_manager.c:383-398 | counts and the free list stay right when a frame becomes a table |
| PageTables.UsedIsReferenced | kern/memory_manager.c:350-354 | the directory, a table or a mapped frame is never on the free list |
| PageTables.Va2PaIsLookup | kern/helpers.c:130-141 | check_va2pa computes the flat map, with ~0 for unmapped |
| PageTables.Mmu.InitializePaging | kern/memory_manager.c:253-298 | boot pins exactly frame 0, the I/O hole and the boot data with one reference each, frees every other frame once, the highest first, and establishes the invariant with nothing mapped |
| PageTables.Mmu.AllocateFrame | kern/memory_manager.c:324-334 | the head of the free list, without references and now held by the caller, or E_NO_MEM exactly on an empty list |
| PageTables.Mmu.FreeFrame | kern/memory_manager.c:340-344 | a held frame becomes the head of the list and is held no more |
| PageTables.Mmu.DecrementReferences | kern/memory_manager.c:350-354 | one reference less; on the last the frame becomes the head of the list |
| PageTables.Mmu.GetPageTable | kern/memory_manager.c:372-407 | the table that the directory word names, made on demand from the head of the free list, which then has one reference; fails exactly when it must be made and no frame is left |
| PageTables.Mmu.GetFrameInfo | kern/memory_manager.c:463-476 | the walk finds the mapped frame |
| PageTables.Mmu.UnmapFrame | kern/memory_manager.c:492-503 | the word of the page becomes 0 and no other word of a page or of the directory changes; its frame loses one reference and on the last becomes the head of the list |
| PageTables.Mmu.MapFrame | kern/memory_manager.c:426-451 | the word of the page becomes the frame's address with perm and the present bit below, or stays as it is if the page was mapped to this frame; the words of all other pages stay; a new table's directory word ends in 7; counts and free list change as Recounted says; failure changes nothing |
| PageTables.Mmu.CheckVa2Pa | kern/helpers.c:130-141 | the frame's address if the page is mapped, else all ones |
| PageTables.Mmu.CalculateFreeFrames | kern/memory_manager.c:569-582 | the walk counts exactly the frames without references that nobody holds |
| HeapSearch.FirstWindowIsFirst | kheap.c:26-42 | the search finds the first window, and fails only when there is none |
| HeapSearch.PagesCover | kheap.c:106-106 | the number of pages is enough for the size and no page more; 0 for a size of 0 and where the rounding wraps |
| HeapSearch.NextFitExact | kheap.c:43-55 | the answer is the first window wholly at or after the hint, without one the first that ends by it, and fails exactly without either |
| HeapSearch.NextFitFails | kheap.c:43-55 | fails exactly when neither side of the hint holds a window |
| HeapSearch.LongRunSuffices | kheap.c:43-55 | a free run of 2k - 1 pages always yields k pages |
| HeapSearch.ShorterRunMayFail | kheap.c:43-55 | for every k >= 2 a run of 2k - 2 pages can be refused |
| HeapSearch.BestFitIsTightest | kheap.c:61-95 | a successful best fit is a window in a shortest run that has one |
| HeapSearch.BestFitExact | kheap.c:61-95 | best fit answers exactly when the last pages of the heap are free, and then with the leftmost of the shortest runs that fit |
| HeapSearch.BestFitIntended | kheap.c:94-94 | "fails only when nothing fits" holds exactly when the trailing run fits or nothing does |
| HeapSearch.BestFitRefusesRoom | uheap.c:109-112 | a heap with room whose request is refused |
| HeapSearch.CloseRun | kheap.c:83-93 | closing a run updates the best so far to the leftmost shortest |
| HeapSearch.PlacedIsWindow | kheap.c:108-125 | under either strategy the place found is free and wide enough |
| HeapSearch.GetStartAddress | uheap.c:45-61 | the counting loop returns the first window of its range |
| HeapSearch.NextFit | uheap.c:62-74 | the first window from the hint to the end, and only without one the first from the start to the hint |
| HeapSearch.BestFit | uheap.c:75-119 | the loop returns the best run if the trailing run is long enough, else fails |
| KernelHeapRuns.RunMirrors | kheap.c:96-165 | at every point of any run of kmalloc and kfree the pages in use are those of the blocks allocated and not freed since, and free plus mapped frames stay constant |
| KernelHeapRuns.RunFrees | kheap.c:144-165 | at every point of a run, kfree of a block that is live then frees all of it and nothing else |
| KernelHeapRuns.RunFromStart | kheap.c:15-25 | from the first use of the heap on it has just the blocks allocated since and not freed |
| KernelHeapRuns.EventMirrors | kheap.c:96-165 | each call keeps the block structure and does to the record of blocks what its name says |
| KernelHeapRuns.LiveApart | kheap.c:130-138 | live blocks never share a page |
| KernelHeapRuns.LiveEnd | kheap.c:151-161 | the scan of kfree from a live block's start stops at the block's end even beside an adjacent block |
| KernelHeapRuns.AllocatedCount | kheap.c:130-138 | kmalloc turns free frames into mapped ones one for one |
| KernelHeapRuns.FreedCount | kheap.c:151-161 | kfree turns mapped frames into free ones one for one |
| KernelHeap.AllocatedKeeps | kheap.c:126-141 | a new block keeps tags, mapping and free list in order, with no frame mapped twice |
| KernelHeap.AllocatedExact | kheap.c:126-141 | page by page: the block's pages are in use under its start's address, its j-th page has the j-th free frame, the last page allocated is its end, and all else is unchanged |
| KernelHeap.BlockServes | kheap.c:96-142 | every byte of a size that was granted lies in a page of the block, in use and with a frame |
| KernelHeap.FreedExact | kheap.c:144-165 | exactly the pages tagged with the address are freed; an address that starts no block frees nothing |
| KernelHeap.FreedRest | kheap.c:144-165 | the frames go to the head of the free list, that of the last page first; bounds, last allocation and other mappings stay |
| KernelHeap.BlockIsInterval | kheap.c:151-161 | the pages in use under a start address are one interval from it |
| KernelHeap.RoundTrip | kheap.c:96-165 | kmalloc then kfree restores page table array, mapping and free-frame count |
| KernelHeap.RoundTripFree | kheap.c:96-165 | after kmalloc and kfree only the order of the block's frames on the free list differs: they are reversed |
| KernelHeap.InitialisedKeeps | kheap.c:15-25 | initialisation makes every page free under its own address |
| KernelHeap.VirtualInverts | kheap.c:167-205 | a virtual address that is found translates back to the physical address |
| KernelHeap.PhysicalInverts | kheap.c:167-205 | a mapped page is recovered from its physical address if and only if it is not beyond the last allocation |
| KernelHeap.PhysicalExact | kheap.c:188-205 | every address within a page translates to the address of the page's frame, or to 0 without one |
| KernelHeap.VirtualExact | kheap.c:167-187 | the answer is the lowest page up to the last allocation that the address backs, and 0 exactly when there is none |
| KernelHeap.PageBeyondLast | kheap.c:179-179 | a heap in which a page in use is not found |
| KernelHeap.Allocator.Kmalloc | kheap.c:96-142 | as many pages as the size rounds up to; placed by the chosen strategy, or 0, or the panic without frames; the new state is the old with that block, every byte asked for lies in a page of it with a frame, and the last page allocated is where it ends |
| KernelHeap.Allocator.Kfree | kheap.c:144-165 | frees the block that starts at the address, any address of the heap or above being allowed |
| KernelHeap.Allocator.Initialise | kheap.c:15-25 | every page is free and tagged with its own address; the mapping and the free list stay |
| KernelHeap.Allocator.VirtualAddress | kheap.c:167-187 | the scan up to lastAllocatedKHpage |
| KernelHeap.Allocator.PhysicalAddress | kheap.c:188-205 | the translation by the page tables |
| UserHeap.MallocedKeeps | uheap.c:162-173 | a window becomes a block every page of which records start and size |
| UserHeap.BlockServes | uheap.c:161-173 | every byte of a granted size lies in a page that the table records for the block and the page file holds |
| UserHeap.MallocedAgrees | uheap.c:161-172 | table and page file still agree after a malloc |
| UserHeap.ClearedAgrees | uheap.c:210-223 | table and page file still agree after a free |
| UserHeap.ClearedKeeps | uheap.c:210-223 | clearing a whole block keeps every other block intact |
| UserHeap.BlocksDisjoint | uheap.c:165-172 | blocks that share a page are the same block |
| UserHeap.FreeOnlyFromStart | uheap.c:201-226 | free from any page of a block keeps the table in order if and only if the page starts the block |
| UserHeap.FreeInside | uheap.c:201-226 | after any malloc of two or more pages, free of one of them but the first breaks the table |
| UserHeap.FreeSecondPage | uheap.c:201-226 | a table of three pages on which that happens |
| UserHeap.StrangersAgree | trap.c:550-560 | a page added to the page file outside the heap leaves table and page file in agreement |
| UserHeap.FreedSize | uheap.c:210-212 | the size read from a page keeps the table in order if and only if the page is free or starts a block |
| UserHeap.Process.constructor | uheap.c:26-32 | an unused heap with arrays of its own agrees with a page file that holds none of it |
| UserHeap.Process.Malloc | uheap.c:120-177 | as many pages as the size rounds up to; place, page-file reservation and records of a successful malloc, whose every byte lies in a recorded page that the page file holds; no change on refusal; unless the kernel panics the agreement is kept |
| UserHeap.Process.Grant | uheap.c:161-173 | the system call and the records, for a window already found |
| UserHeap.GrantAnswer | uheap.c:161-161 | for a window of free pages the last answer of the page file speaks for all |
| UserHeap.GrantKeeps | uheap.c:161-173 | with room, table and memory are in order and agree after the grant |
| UserHeap.Process.Free | uheap.c:201-226 | the recorded pages leave table, page file, memory and working set together, table and page file agree again, and the table is in order if and only if the page was free or started a block |
| UserHeap.Process.Initialise | uheap.c:33-44 | every page is free, tagged with its own address, with size 0 |
| UserHeapRuns.RunAgrees | uheap.c:120-226 | at every point of any run of malloc (placed or refused), free of block starts, faults and accesses the table lists exactly the live blocks and agrees with the page file, the memory is in order, and every read returns the flat memory's content |
| UserHeapRuns.RunPages | uheap.c:120-226 | at every point of a run the live blocks are disjoint and a heap page is in the page file if and only if one of them covers it |
| UserHeapRuns.CallSound | uheap.c:120-226 | each call keeps table, page file and memory sound together and does to the record of blocks and to the flat memory what its name says |
| UserHeapRuns.MallocSound | uheap.c:157-173 | a placed malloc adds one block and finds its pages neither in the page file nor resident |
| UserHeapRuns.FreeSound | uheap.c:201-226 | a free removes just the block that starts at its page |
| UserHeapRuns.MemorySound | trap.c:363-421 | faults and accesses leave the heap's part of the page file alone |
| UserHeapRuns.MallocedMirrors | uheap.c:162-172 | the new block covers its window and no page of another block |
| UserHeapRuns.ClearedMirrors | uheap.c:213-223 | every other block survives the clearing intact |
| UserHeapRuns.LiveApart | uheap.c:165-172 | live blocks never share a page |
| UserHeapRuns.StartSound | uheap.c:26-44 | an initialised heap without pages in the page file is a sound start |
| Scheduler.NoStarvation | sched.c:142-172 | in a closed system, from any moment every process runs within m * (L - 1) + m steps |
| Scheduler.NoStarvationFromAnywhere | sched.c:142-172 | from any state with a running process, the index fresh or stale, everybody runs within the potential plus the number of processes |
| Scheduler.SinksFromAnywhere | sched.c:142-172 | from any such state preemptions lose nobody and lower the potential by one each until it is zero |
| Scheduler.SunkInTime | sched.c:142-172 | all processes are at the bottom within m * (L - 1) preemptions |
| Scheduler.RunsSink | sched.c:142-172 | over a run nobody is lost or duplicated, the index stays fresh, and each preemption lowers the potential by one |
| Scheduler.StartedPotential | sched.c:137-141 | m processes at the top of L levels start m * (L - 1) levels above the bottom in all |
| Scheduler.StepConserves | sched.c:46-62 | one step neither loses nor duplicates a process |
| Scheduler.StepPicks | sched.c:142-172 | with the running process put back as the newest of its queue, the earliest arrival of the first queue in which somebody waits runs, that queue loses just that one, and all others stay |
| Scheduler.RoundRobinPicks | sched.c:190-211 | round robin picks the earliest arrival of its one queue, whatever the index |
| Scheduler.PickKeepsOrder | sched.c:46-62 | a decision either runs the earlier of two waiting processes or leaves both waiting in the same order |
| Scheduler.MoveKeepsOrder | sched.c:46-62 | so does every decision, exit and arrival, and nobody is duplicated |
| Scheduler.FirstInFirstOut | sched.c:142-172 | over any run of decisions, exits and arrivals and at every level, of two processes waiting in one queue the later arrival does not run before the earlier one has |
| Scheduler.StepSinks | sched.c:142-172 | a preemption lowers the summed distance to the bottom by one until it is zero |
| Scheduler.PreemptionIsFresh | sched.c:137-141 | a process picked at level i re-enters at min(i + 1, L - 1) |
| Scheduler.StaleAfterExit | sched.c:137-141 | without a running process the index goes stale exactly on a pick from the bottom with an index above it |
| Scheduler.StaleHistory | sched.c:492-549 | a history with three levels that ends stale: a process at the bottom is picked after a newcomer's exit and re-enters above the bottom |
| Scheduler.ReinitialisedHistory | sched.c:101-125 | a history after which re-initialising with two levels leaves the index past the last queue |
| Scheduler.BottomRotates | sched.c:142-172 | at the bottom a step rotates the ring of processes by one |
| Scheduler.EveryoneRuns | sched.c:142-172 | one full turn of the ring runs every process once and restores the ring |
| Scheduler.RoundRobinIsOneLevel | sched.c:190-211 | round robin is the feedback queue with one level |
| Scheduler.ReadyQueues.constructor | sched.c:101-125 | empty queues, first quantum set, the index as it was; usable under MLFQ if and only if that index names a queue |
| Scheduler.ReadyQueues.GetSelectedLevel | sched.c:129-136 | the first queue that is not empty, or -1 |
| Scheduler.ReadyQueues.UpdateIndexToEnqueue | sched.c:137-141 | the level below, or no change at the bottom |
| Scheduler.ReadyQueues.Enter | sched.c:46-52 | a process becomes the head of its queue |
| Scheduler.ReadyQueues.Leave | sched.c:54-62 | the last of a queue is taken out and the rest keep their order |
| Scheduler.ReadyQueues.FosSchedulerMLFQ | sched.c:142-172 | the running process goes back to the head of the queue of the index; then the last of the first queue that is not empty runs, that queue loses exactly it and all others stay; the index is the level below and the quantum that of its level |
| Scheduler.ReadyQueues.FosScheduler | sched.c:181-244 | the same under either method, round robin keeping its index; with nobody waiting the kernel goes to its prompt |
| Scheduler.ReadyQueues.SchedInsertReady | sched.c:280-287 | an arrival becomes the newest of the top queue and no other queue changes |
| StabSearch.SearchLocates | kern/kdebug.c:59-103 | left is the last entry of the kind at or below the address, right is just before the first above it or the old right; with no entry right is left - 1 |
| StabSearch.NotContainedSignal | kern/kdebug.c:41-43 | on every table, ordered or not, left > right exactly when the region has no entry of the kind, and then none contains the address |
| StabSearch.RunTells | kern/kdebug.c:65-91 | on every table the loop notices an entry of the kind exactly when there is one |
| StabSearch.SearchExact | kern/kdebug.c:59-103 | for every ordered table and address the answer is right if and only if there is no exact hit, or the open part at the first hit is clear, or the target wraps on the entry that follows (which cannot happen below the last two words); and left is the entry containing the address if and only if, besides, there is an entry at or below it |
| StabSearch.HitIsMet | kern/kdebug.c:65-90 | the search meets an exact hit exactly when the region has one |
| StabSearch.UntilHitNarrows | kern/kdebug.c:65-83 | up to the first exact hit nothing depends on the entries near the target |
| StabSearch.ClearHitLocates | kern/kdebug.c:84-102 | a hit in a clear open part leads to the right answer |
| StabSearch.StrayHit | kern/kdebug.c:84-102 | a hit with a later entry within a word in the open part leads to the right answer only by a wrap on the first such entry |
| StabSearch.OvertakenStays | kern/kdebug.c:78-90 | once the target has caught up with an entry the right bound never comes down past it unless the target wraps |
| StabSearch.WrapLocates | kern/kdebug.c:84-90 | a hit on which the target wraps leaves both bounds just before that entry |
| StabSearch.HitMaySpoil | kern/kdebug.c:84-90 | for every address and every gap of at most a word a table whose answer is wrong |
| StabSearch.HalvingMaySave | kern/kdebug.c:66-83 | for every address and gap a table with such an entry whose answer is right all the same |
| StabSearch.TopHitSpoils | kern/kdebug.c:89-89 | in the last word of the address space the answer is right exactly when there is no exact hit |
| StabSearch.TargetSplits | kern/kdebug.c:84-90 | the raised target decides every comparison as the original one |
| StabSearch.RunNarrows | kern/kdebug.c:65-91 | what the loop keeps, through turns that move a bound and turns that move the target |
| StabSearch.StepNarrows | kern/kdebug.c:65-91 | one turn keeps it |
| StabSearch.CloseLocates | kern/kdebug.c:93-102 | once the bounds have met, the closing scan gives the bracket |
| StabSearch.NearestIsNearest | kern/kdebug.c:69-70 | the backward scan stops at the nearest entry of the kind |
| StabSearch.Step | kern/kdebug.c:65-91 | every turn shrinks the range or leaves an exact hit behind, which gives termination for every table |
| StabSearch.Narrow | kern/kdebug.c:65-91 | the loop terminates on every table, ordered or not, and computes the run |
| StabSearch.StabBinsearch | kern/kdebug.c:59-103 | the whole function computes the search |
| EnvIds.SameId | kern/user_environment.c:349-354 | two incarnations share an id if and only if they share the slot and are a multiple of 2^19 - 1 apart |
| EnvIds.StaleWithinPeriod | kern/helpers.c:345-349 | within that period a stale id is the id of no later incarnation of any slot |
| EnvIds.IssuedStep | kern/user_environment.c:351-354 | the 32-bit computation, wrap-around included, yields the next id of the cycle |
| EnvIds.IssuedNext | kern/user_environment.c:351-354 | the next id is a generation of 4096 further, or the first one again where that leaves the signed 32-bit range |
| EnvIds.CutOut | kern/user_environment.c:381-381 | removal takes exactly one slot out of the free list and keeps the order of the rest |
| EnvIds.IssuedShape | kern/user_environment.c:351-354 | every id is positive and carries its slot in its low bits |
| EnvIds.EnvTable.constructor | kern/user_environment.c:330-340 | the table after start-up is in order, slot 0 first |
| EnvIds.EnvTable.EnvInit | kern/user_environment.c:330-340 | the reverse loop chains all slots in increasing order |
| EnvIds.EnvTable.AllocateEnvironment | kern/user_environment.c:92-97 | the first free slot; fails only when every slot is in use |
| EnvIds.EnvTable.EnvRun | kern/user_environment.c:287-296 | the given environment becomes the current one and nothing else changes |
| EnvIds.EnvTable.CompleteInitialization | kern/user_environment.c:342-383 | the slot gets the next id of its cycle, no parent and the runnable status, and is cut out of the free list, whose rest keeps its order; no other slot changes |
| EnvIds.EnvTable.FreeEnvironment | kern/user_environment.c:100-106 | the slot returns to the head of the list, its id kept for the next round |
| EnvIds.EnvTable.EnvId2Env | kern/helpers.c:330-363 | an id resolves exactly to the live incarnation that holds it, ids a period away included, and fails exactly when there is none; with the permission check exactly to the current environment or its child |

## Left out

- Console, keyboard, traps, descriptor tables, assembly, `lcr3` and TLB flushes: machine plumbing.
- The page-file disk code is not part of this model: the page file is a map with a capacity. `pf_add_empty_env_page` with flag 0 adds a copy without content, so a fresh stack page reads as anything until it is first written; `pf_read_env_page` leaves the page clean.
- Buffering, page tables on disk, the table working set (and its ageing loop, sched.c:695-719), `moveMem`, `realloc`, shared variables: stubs, panics or unused. Frames are never buffered.
- Hardware updates of used and modified bits while a handler runs: the processor's accesses are events between handler calls.
- Page replacement with another algorithm selected, which prints a message and goes on with an uninitialised victim (trap.c:586, trap.c:590): the modified clock is assumed selected.
- `sched_exit_env`, `sched_kill_env`, `sched_run_all` and the other loops that remove while iterating: their meaning depends on list macros that are not part of this model. `env_status` changes of `sched_insert_ready` are not modelled.
- Boot mapping, ELF loading, `env_create`, `env_free`, the frame storage helpers and the commands of `kern/command_prompt.c`.
- Kernel-heap page tables: they exist from boot (memory_manager.c:103-111), so mapping a heap page never makes a table; the heap's frames and translations are modelled apart from the environment's.
- Execution.NewTableReady: kmalloc answering 0 because the kernel heap is full is no event of a run; see the next line.
- MemoryManager.Machine.CreatePageTable: takes one frame and makes one table; that the kernel heap has room for it and that `kheap_virtual_address` finds it again is assumed here and is exactly the condition of KernelHeap.PhysicalInverts.
- MemoryManager.Machine.AllocateMem: for size 0 the code tests an uninitialised variable; the model succeeds.
- MemoryState.ReservedKeeps: assumes, like the next line, that no page of the range is resident.
- Execution.AllocateMemShows: assumes that no page of the range is resident, which malloc guarantees (UserHeapRuns.MallocSound); the call would clear the copy behind a resident page and leave its frame alone.
- UserHeap.Process.Malloc: with neither strategy selected the code uses an uninitialised address; the strategy is a parameter. A panic leaves the state unspecified.
- UserHeap.Process.Free: assumes that the recorded size does not lead past the end of the table, where the code writes outside it; UserHeap.FreeOnlyFromStart cuts such a range off at the end.
- KernelHeap.Allocator.Kfree: assumes an address at or above the heap start; below it the code indexes outside its table.
- KernelHeap.Allocator.PhysicalAddress: assumes an address at or above the heap start; below it the answer comes from the boot mapping, which is not part of this model.
- RequiredFrames.CalculateRequiredFrames: assumes that the last step of 4 MB beyond the range does not leave the 32-bit address space, beyond which the loop may not end.
- Scheduler.ReadyQueues.SchedInsertReady: the status of the arriving environment is not modelled.
- EnvIds.EnvTable.EnvRun: the run counter and the context switch itself are not modelled.
- UserHeap.FreeOnlyFromStart: a range that runs past the end of the table is cut off there.
- EnvIds.EnvTable.CompleteInitialization: the saved registers and the self-mapping directory entries are not modelled; the number of slots is any power of two up to 4096, as a divisor of the generation step.
- StabSearch.StabBinsearch: `l + r` is assumed not to overflow, which holds for any table that fits in memory.
- PageTables.Mmu.InitializePaging: the bounds of the I/O hole and of the boot data are parameters in frames. Directory entries at or above `limit`, which hold the kernel's and the self-mapping, are not managed by the model.
- The tables of both heaps are arrays of structs in C and parallel arrays here; page-table memory, the working-set scratch array and the queues are sequences reassigned in place; bit masks on page-table entries are arithmetic. Reference counts are unbounded, while the code keeps them in a machine word.
- `page_check` (kern/helpers.c:150-251) is not replayed: its assertions are instances of PageTables.MapFrameRefines, PageTables.UnmapRefines and PageTables.RunRefines.
