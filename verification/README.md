# Proofs about QEMU's dispatch, event-loop, block and dump code

This project models, in Dafny, the parts of QEMU 2.4.1 where an index, a cache,
a protocol or a second traversal has to agree with something much simpler, and
proves that it does, for every input or every run. Where the source updates
state in place (page-map nodes, RAM block list, TLB arrays, dump cursors, backing
chains), the model is a class with methods over fields and arrays; each method is
proved against a specification, and the properties are proved about the
specification. Where several threads take part, the model is a state machine
over the atomic steps of the source, and the properties are proved of every
state that any run reaches.

| file | models |
|---|---|
| `Radix`, `Pages` | index arithmetic of the page map; page size symbolic, from 1K to 64K |
| `PageTree`, `Compaction`, `PhysMap` | the radix tree `PhysPageMap`: growth, path compression, lookup |
| `Sections`, `FlatDispatch`, `Dispatch` | memory sections, subpages, `mem_begin`/`mem_add`/`mem_commit`, translation |
| `AioWakeup`, `AioLists` | the `AioContext`: wakeups, and nodes that nested walks hold on to |
| `BounceBuffer` | the bounce buffer and the clients waiting for it |
| `RamBlocks` | `ram_addr_t` allocation and the block lookup cache |
| `SoftTlb` | flushing small and large pages from main and victim TLB |
| `Icount` | instruction budgets and the virtual clock |
| `Vmcore`, `GuestPages`, `KdumpBitmap`, `KdumpPages`, `KdumpFile` | the guest dump writers |
| `BlockGraph`, `BlockCommit`, `DirtyBitmaps` | backing chains, commit, dirty bitmaps |
| `Basics`, `Files`, `Runs` | an option type and list operations, dump files, runs of state machines |

## How the main results fit together

*Address dispatch.* The tree stands for a flat array of section numbers
(`PageTree.Flat`). `PageSet` is a pointwise update of that array. Compaction is
not: it forgets address bits, so a compacted tree may answer for pages that used
to be empty. `Compaction.Widened` says exactly how much a walk may widen, and
`CompactionPreservesFind` shows that the range check at the end of a lookup takes
it all back, provided the leaves of a section are exactly its pages, which
`WellFormedExact` derives from the way tables are built. `Resolve` puts the whole
together: a list of disjoint sections of any alignment goes in, and every byte of
the address space comes out with the region and offset of the section covering it.
It fails, where the source asserts, exactly if `TableSize` exceeds a page size.

*Event loop.* A bottom half whose flag was raised by `qemu_bh_schedule` while the
poller is blocked has the notifier set, or a thread on its way to set it which
`notify_me` will not turn back (`NoLostWakeup`). `qemu_bh_schedule_idle` raises the
same flag and notifies nobody. What that costs is stated exactly: scheduling wakes a
blocked poller if and only if the flag was clear (`ScheduleWakesIff`), so from every
blocked state in which nobody is about to notify, idle scheduling followed by normal
scheduling leaves the bottom half waiting (`IdleThenScheduleIsLost`), and such a
state is reached (`LostIsReached`). Once the bottom half has run, the next
scheduling is covered again. A poller that poll() has let go runs every bottom half
that stays scheduled before it leaves (`WokenPollerRuns`), and each of its steps is
possible and brings it closer to leaving (`PollerCanStep`).

*Dirty bitmaps.* What a bitmap should hold is computed from the list of calls alone
(`SinceClear`, `SinceFreeze`), without looking at any bitmap.
`NothingLostNorInvented` proves that after every run the bitmap and its successor
hold exactly that. The methods of `DirtyBitmapList` keep the list of calls and say
which call was added.

*Dump files.* Each writer is proved to produce a byte string that is defined
without buffers or cursors, and the offsets computed elsewhere are then shown to
point into that string (`SegmentReadsBack`, `PageReadsBack`). `WriteKdump` runs the
bitmap and the page writer on one file.

## Where the code and its promises differ

- A comment in `phys_page_compact` says a node whose only child is a leaf is never
  met. `LoneLeafIsBuilt` proves that any aligned run of 512 pages, alone in the
  address space, leaves one. The code makes the parent a leaf, and the range check
  of the lookup makes up for it.
- The guard on the sum of skips in `phys_page_compact` never fires (`SkipsFit`), and
  the branch of `mem_add` for an unaligned remainder of a page or more is never
  taken (`NextPiece`).
- The layout comment of the kdump format puts the pages behind two bitmap copies.
  `offset_page` is computed in 32 bits, so this holds if and only if header and
  copies end below 4 GiB (`PagesBehindBitmapIff`); a guest of 2^34 page frames is
  one where it does not (`LargeGuestOverlaps`).
- `find_ram_offset` never looks at the gap before the lowest block. `SpaceLeftIff` and
  `FindRamOffset` state exactly when it gives up although a range is free, and
  `FailsThoughFree` is such a run.

## Model

| member | source | states |
|---|---|---|
| `Pages.LevelsSuffice` | qemu-2.4.1/exec.c:112-118 | for every page size six levels result, enough for all pages of the 64-bit address space |
| `PageTree.WalkFrame` | qemu-2.4.1/exec.c:293-315 | a walk from an entry visits only nodes placed below that entry's slot, so changes elsewhere cannot affect it |
| `PageTree.OtherSlots` | qemu-2.4.1/exec.c:195-219 | changing one slot of a node, and nodes below it, leaves the walks through all other slots as they were |
| `PhysMap.PhysPageMap.constructor` | qemu-2.4.1/exec.c:2198-2199 | the empty map resolves every page to the unassigned section |
| `PhysMap.PhysPageMap.NodeReserve` | qemu-2.4.1/exec.c:166-173 | the capacity ends up at the request or above, never shrinks, and is untouched when it was enough |
| `PhysMap.PhysPageMap.NodeAlloc` | qemu-2.4.1/exec.c:175-193 | hands out the next node, filled with unassigned leaves or empty pointers; both assertions of the source are preconditions that every caller meets |
| `PhysMap.PhysPageMap.EnsureNode` | qemu-2.4.1/exec.c:202-205 | the entry points at a node afterwards, no page changes its section, at most one node is used |
| `PhysMap.PhysPageMap.PutLeaf` | qemu-2.4.1/exec.c:208-213 | one slot becomes a leaf: exactly its pages change, and only below that slot |
| `PhysMap.PhysPageMap.SetSlot` | qemu-2.4.1/exec.c:208-218 | one round of the loop paints exactly the pages of the range in one slot and advances index and count together |
| `PhysMap.PhysPageMap.SetLevel` | qemu-2.4.1/exec.c:195-219 | paints exactly the pages from the index to the end of the range or of the slot, touches only nodes below the entry, and stays within the node bound |
| `PhysMap.SpentStep` | qemu-2.4.1/exec.c:195-219 | the nodes spent on the slots so far and on the next one never exceed the bound: only the first and the last slot of a range recurse |
| `PhysMap.PhysPageMap.PageSet` | qemu-2.4.1/exec.c:221-229 | a pointwise update of the flat page map on the range and nowhere else; at most 2 * levels - 1 new nodes, so the reservation of 3 * levels suffices; one aligned run in an empty map becomes a single leaf |
| `PhysMap.FreshPaints` | qemu-2.4.1/exec.c:175-193 | hanging a fresh node under an empty entry changes no page |
| `PhysMap.LeafSlot` | qemu-2.4.1/exec.c:208-213 | a leaf entry gives all pages of its slot, and no others, to the section |
| `PhysMap.SlotOpen` | qemu-2.4.1/exec.c:214-216 | where a page of the range is under no wider leaf, the slot can be descended into; the recursion never goes below level 0 |
| `Compaction.WalkMod` | qemu-2.4.1/exec.c:300-306 | a walk depends only on the digits still to be read |
| `Compaction.NodeDone` | qemu-2.4.1/exec.c:245-256 | when all slots of a node are widened at most, so is the entry pointing at the node |
| `Compaction.LiftDone` | qemu-2.4.1/exec.c:270-281 | replacing a node with one child by that child changes only walks that used to miss, and they end at a leaf that was there before |
| `Compaction.SweepStep` | qemu-2.4.1/exec.c:245-256 | compacting below one slot keeps what was established for the slots before it and leaves those after it untouched |
| `Compaction.WidenedLifted` | qemu-2.4.1/exec.c:270-281 | lifting the only child keeps the placement of nodes and widens walks at most |
| `PhysMap.PhysPageMap.Compact` | qemu-2.4.1/exec.c:234-282 | every page that resolved still resolves to the same section; a page that missed may now reach a leaf of the same subtree, and nothing else changes |
| `PhysMap.PhysPageMap.Lift` | qemu-2.4.1/exec.c:270-281 | the entry skips the node it pointed at, the only child being a leaf or a node |
| `PhysMap.SkipsFit` | qemu-2.4.1/exec.c:265-268 | the sum of skips stays below 8, so compression is never refused for want of bits |
| `PhysMap.LoneLeafIsBuilt` | qemu-2.4.1/exec.c:271-278 | any aligned run of 512 pages, alone in the map, leaves a node whose only valid child is a leaf on the way to its pages |
| `PhysMap.PhysPageMap.CompactAll` | qemu-2.4.1/exec.c:284-291 | the same for the whole tree |
| `PhysMap.PhysPageMap.PageFind` | qemu-2.4.1/exec.c:293-315 | the loop returns the section of the walk if its range covers the address, and the unassigned one otherwise |
| `Sections.CoversIsWithin` | qemu-2.4.1/include/qemu/range.h:41-51 | the wrapping range check means plain membership for nonempty sections inside the address space |
| `Sections.CompactionPreservesFind` | qemu-2.4.1/exec.c:234-315 | lookups before and after compaction agree for every address, if the leaves of a section are exactly its pages |
| `FlatDispatch.BlankPage` | qemu-2.4.1/exec.c:1045-1055 | a page all of whose bytes are unassigned has no leaf and no subpage |
| `FlatDispatch.MultipageOverlays` | qemu-2.4.1/exec.c:1071-1081 | painting whole pages overlays exactly the section's bytes and keeps the table well-formed |
| `FlatDispatch.SubpageOverlays` | qemu-2.4.1/exec.c:1062-1068 | registering in an existing subpage overlays exactly the section's bytes, on no other page |
| `FlatDispatch.NewSubpageOverlays` | qemu-2.4.1/exec.c:1055-1068 | giving a page its first subpage and registering there overlays exactly the section's bytes |
| `Dispatch.PieceTranslates` | qemu-2.4.1/exec.c:1099-1103 | a piece cut from a section translates each of its addresses as the section does, modulo 2^64 |
| `Dispatch.AddressSpaceDispatch.constructor` | qemu-2.4.1/exec.c:2183-2201 | the four dummy sections cover everything and every byte resolves to the unassigned one |
| `Dispatch.AddressSpaceDispatch.SectionAdd` | qemu-2.4.1/exec.c:1000-1017 | appends the section unless the table has a page size of entries, where the source asserts |
| `Dispatch.AddressSpaceDispatch.SubpageRegister` | qemu-2.4.1/exec.c:2109-2127 | exactly the bytes from start to end change, and nothing does when either is off the page |
| `Dispatch.AddressSpaceDispatch.SubpageInit` | qemu-2.4.1/exec.c:2129-2147 | a new subpage whose bytes are all unassigned; the others are untouched |
| `Dispatch.AddressSpaceDispatch.RegisterMultipage` | qemu-2.4.1/exec.c:1071-1081 | the bytes of the section, and no others, now resolve to it; fails exactly on a full table |
| `Dispatch.AddressSpaceDispatch.OpenPages` | qemu-2.4.1/exec.c:1071-1081 | the pages of a blank section are unmapped and under no wider leaf, as `phys_page_set` needs |
| `Dispatch.AddressSpaceDispatch.SubpageFor` | qemu-2.4.1/exec.c:1040-1063 | finds the subpage of the page or makes one in an unmapped page; the lookup it relies on is right in the middle of the rebuild |
| `Dispatch.AddressSpaceDispatch.RegisterSubpage` | qemu-2.4.1/exec.c:1040-1068 | the bytes of a piece of one page, and no others, now resolve to it; one entry, or two on an unmapped page, and failure exactly if they do not fit |
| `Dispatch.AddressSpaceDispatch.RegisterPiece` | qemu-2.4.1/exec.c:1099-1112 | after each registration the bytes of the section up to the end of the piece resolve to pieces of it, all others as before |
| `Dispatch.AddressSpaceDispatch.FirstPiece` | qemu-2.4.1/exec.c:1090-1098 | the part before the first page boundary is registered, if there is one; what is left starts at a boundary, and exactly its entries are yet to come |
| `Dispatch.AddressSpaceDispatch.NextPiece` | qemu-2.4.1/exec.c:1099-1113 | one round registers the whole pages or the tail, keeps pieces, progress and the count of entries, and never meets an unaligned remainder of a page or more |
| `Dispatch.AddressSpaceDispatch.MemAdd` | qemu-2.4.1/exec.c:1083-1114 | a section of any alignment, disjoint from those added before, is added; it takes exactly the entries computed from the two lists of sections, and fails exactly if they do not fit |
| `Dispatch.TouchedIsMapped` | qemu-2.4.1/exec.c:1040-1068 | a page is mapped if and only if a section added before has a byte on it |
| `Dispatch.SamePage` | qemu-2.4.1/exec.c:1083-1114 | registering bytes below a page does not map it, so the cost of the tail is known before the head is registered |
| `Dispatch.TableSize` | qemu-2.4.1/exec.c:1000-1017 | the table for a list of sections has at least the four dummies and at most five entries per section |
| `Dispatch.WellFormedExact` | qemu-2.4.1/exec.c:1040-1081 | in a well-formed table the leaves of a section are exactly the pages in its range |
| `Dispatch.CompactedFinds` | qemu-2.4.1/exec.c:234-315 | the compacted tree finds the number of the page for every address |
| `Dispatch.AddressSpaceDispatch.MemCommit` | qemu-2.4.1/exec.c:2209-2221 | after compaction every lookup still gives what the table gave while it was built |
| `Dispatch.AddressSpaceDispatch.LookupRegion` | qemu-2.4.1/exec.c:324-337 | the section number for the address, subpages resolved or not; resolved, it is a piece of the covering section or unassigned |
| `Dispatch.SubpageByte` | qemu-2.4.1/exec.c:349-353 | the offset within the region of an unresolved subpage is the offset in the page |
| `Dispatch.ResolvedByte` | qemu-2.4.1/exec.c:340-373 | a right section number gives region, offset and remaining length of the covering section |
| `Dispatch.AddressSpaceDispatch.TranslateInternal` | qemu-2.4.1/exec.c:340-373 | region and offset of the covering section, subpages resolved or not; an unresolved subpage gives its own region; for RAM the length is cut at the end of the piece, for I/O it is kept |
| `Dispatch.Rebuild` | qemu-2.4.1/exec.c:2183-2221 | begin, add and commit any list of disjoint sections; succeeds exactly if the size of the table, computed from the list, is at most a page size, and the table then has that size |
| `Dispatch.Resolve` | qemu-2.4.1/exec.c:1040-1114 | for every list of disjoint sections whose table fits and every address: region and offset are those of the covering section, unassigned where there is none |
| `AioWakeup.CoveredByThread` | qemu-2.4.1/async.c:112-153 | no step of a scheduling thread leaves a bottom half that was scheduled the notifying way uncovered while the poller is committed to blocking |
| `AioWakeup.CoveredByPoller` | qemu-2.4.1/aio-posix.c:233-299 | no step of the poller does, whichever bottom halves its timeout scan has passed |
| `AioWakeup.EventStep` | qemu-2.4.1/async.c:278-295 | a set notifier always has `notified` raised, or about to be raised, or the poller about to clear it |
| `AioWakeup.InvStep` | qemu-2.4.1/async.c:63-182 | every step keeps the invariant, with `notify_me` counting exactly the announced blocking poll |
| `AioWakeup.NoLostWakeup` | qemu-2.4.1/async.c:121-182 | in every interleaving, a bottom half whose flag was raised by normal scheduling while the poller is blocked has the notifier set or a thread on its way to it, which sees `notify_me` nonzero |
| `AioWakeup.NoStaleEvent` | qemu-2.4.1/async.c:278-295 | in every interleaving, once all is quiet a set notifier implies `notified`, so the next accept clears it |
| `AioWakeup.WokenPollerRuns` | qemu-2.4.1/async.c:63-89 | in every interleaving, once poll() has returned, a scheduled bottom half runs before the poll ends, unless a thread cancels or deletes it |
| `AioWakeup.PollerCanStep` | qemu-2.4.1/aio-posix.c:233-299 | in every interleaving the next step of the poller is possible and brings it closer to the end of the poll |
| `AioWakeup.ThreadsKeepLeft` | qemu-2.4.1/async.c:112-153 | scheduling, cancelling and deleting never put off the end of the poll |
| `AioWakeup.ScheduleWakesIff` | qemu-2.4.1/async.c:121-136 | in every reachable blocked state, a call of `qemu_bh_schedule` sets the notifier if and only if the flag was clear |
| `AioWakeup.IdleThenScheduleIsLost` | qemu-2.4.1/async.c:112-136 | from every blocked state with nobody about to notify, idle scheduling followed by normal scheduling leaves the bottom half scheduled and no wakeup on its way |
| `AioWakeup.LostIsReached` | qemu-2.4.1/async.c:112-136 | a concrete run that reaches such a state |
| `AioLists.Reap` | qemu-2.4.1/async.c:93-107 | the loop keeps exactly the bottom halves that are not deleted, in order, and frees exactly the others |
| `AioLists.FindHandler` | qemu-2.4.1/aio-posix.c:31-42 | the first handler for the descriptor that is not deleted, skipping deleted ones |
| `AioLists.ReapSafe` | qemu-2.4.1/async.c:91-107 | with no walk under way, unlinking the deleted bottom halves leaves nothing held that is freed |
| `AioLists.VisitSafe` | qemu-2.4.1/async.c:70-88 | taking the saved next node is safe even if the callback changed the list, and uses up one scheduling |
| `AioLists.UnlinkSafe` | qemu-2.4.1/aio-posix.c:63-70 | unlinking a handler that no walk holds keeps all other walks safe |
| `AioLists.DispatchNextSafe` | qemu-2.4.1/aio-posix.c:143-179 | advancing reads the next node before the current one may be freed, and frees it only as the last walk |
| `AioLists.BhStep` | qemu-2.4.1/async.c:44-153 | every step on bottom halves keeps held nodes linked, ids unique and runs within schedulings |
| `AioLists.HandlerStep` | qemu-2.4.1/aio-posix.c:44-185 | every step on handlers keeps held nodes linked and one live handler per descriptor |
| `AioLists.HeldNodesAreLinked` | qemu-2.4.1/async.c:63-110 | over every nesting of walks and every callback: a node that a walk holds is linked and not freed |
| `AioLists.OneHandlerPerFdAndOneRunPerSchedule` | qemu-2.4.1/aio-posix.c:31-91 | over every run: one live handler per descriptor, and each time the flag of a bottom half was raised its callback runs at most once |
| `BounceBuffer.AttendedStep` | qemu-2.4.1/exec.c:2628-2679 | every step leaves waiting clients with a buffer owner, an unmapper or a lock holder that will wake them |
| `BounceBuffer.OwnerStep` | qemu-2.4.1/exec.c:2711-2751 | every step keeps the buffer in use exactly while one thread owns it |
| `BounceBuffer.HistoryStep` | qemu-2.4.1/exec.c:2622-2679 | every step keeps registered clients equal, as multisets, to those waiting, woken and withdrawn |
| `BounceBuffer.NoStrandedClient` | qemu-2.4.1/exec.c:2639-2679 | in every interleaving, with the lock free and a client waiting, the buffer is in use or an unmapper has yet to notify |
| `BounceBuffer.SingleOwner` | qemu-2.4.1/exec.c:2711-2751 | in every interleaving at most one thread owns the buffer, exactly while it is in use |
| `BounceBuffer.AllClientsServed` | qemu-2.4.1/exec.c:2799-2808 | in every interleaving, when all threads are done every client was woken or withdrawn |
| `RamBlocks.InBlockIsContains` | qemu-2.4.1/exec.c:862-869 | the unsigned subtraction test means membership |
| `RamBlocks.GapIsMaximal` | qemu-2.4.1/exec.c:1263-1272 | the gap behind a block has no address of any block in it and ends at a block or at the end of the range |
| `RamBlocks.FitIsApart` | qemu-2.4.1/exec.c:1252-1286 | a block placed in a best-fitting gap overlaps nothing, stays in range and is page-aligned |
| `RamBlocks.InsertedSound` | qemu-2.4.1/exec.c:1469-1485 | insertion keeps the list disjoint and sorted by decreasing size |
| `RamBlocks.SpaceLeftIff` | qemu-2.4.1/exec.c:1252-1286 | a range of the size is free if and only if a gap behind a block has room, or the gap before the lowest block has |
| `RamBlocks.OneHolder` | qemu-2.4.1/exec.c:857-893 | no address lies in two blocks of the list |
| `RamBlocks.RAMList.FindNextStart` | qemu-2.4.1/exec.c:1264-1272 | the inner loop finds the lowest block offset at or above the end |
| `RamBlocks.RAMList.FindRamOffset` | qemu-2.4.1/exec.c:1252-1286 | the start of a smallest sufficient gap; the abort exactly if no gap behind a block suffices, and then space is left exactly if the gap before the lowest block has room; 0 for an empty list |
| `RamBlocks.RAMList.RamBlockAdd` | qemu-2.4.1/exec.c:1435-1491 | the new block at its best-fit offset and its place in the order, cache dropped, version raised; unchanged on failure |
| `RamBlocks.RAMList.RamFree` | qemu-2.4.1/exec.c:1662-1679 | exactly the block at the offset goes and the cache is dropped; nothing changes if there is none |
| `RamBlocks.RAMList.GetRamBlock` | qemu-2.4.1/exec.c:857-893 | through the cache or the list, the one block that contains the address, and failure exactly if none does |
| `RamBlocks.FailsThoughFree` | qemu-2.4.1/exec.c:1252-1286 | a run of two additions and a free after which an allocation fails although its range is free |
| `SoftTlb.Widen` | qemu-2.4.1/cputlb.c:236-239 | the loop ends; the mask is below both, makes the addresses agree, and was not widened a step too far |
| `SoftTlb.SpansAll` | qemu-2.4.1/cputlb.c:223-242 | a page the region has taken in lies in it with all its addresses |
| `SoftTlb.SpansWider` | qemu-2.4.1/cputlb.c:236-241 | widening the mask and masking the address keeps every page taken in |
| `SoftTlb.NewEntryTranslates` | qemu-2.4.1/cputlb.c:302-331 | a new entry translates its own page, if any access is allowed, and no other page |
| `SoftTlb.EmptyTranslatesNothing` | qemu-2.4.1/cputlb.c:72-82 | an entry of all ones translates no page |
| `SoftTlb.FlushEntry` | qemu-2.4.1/cputlb.c:72-82 | the entry is emptied exactly if it translates the page for some access; no other entry changes |
| `SoftTlb.CpuTlb.constructor` | qemu-2.4.1/cputlb.c:51-70 | an empty TLB translates no page |
| `SoftTlb.CpuTlb.Flush` | qemu-2.4.1/cputlb.c:51-70 | all main and victim entries are empty and the region is reset |
| `SoftTlb.CpuTlb.AddLargePage` | qemu-2.4.1/cputlb.c:223-242 | the region still contains all large pages since the last flush, and the new one |
| `SoftTlb.CpuTlb.FlushMain` | qemu-2.4.1/cputlb.c:107-111 | flushing one index per mode removes the page from the whole main table, and nothing else |
| `SoftTlb.CpuTlb.FlushVictims` | qemu-2.4.1/cputlb.c:113-119 | removes the page from all victim entries of all modes, and nothing else |
| `SoftTlb.CpuTlb.FlushPage` | qemu-2.4.1/cputlb.c:84-122 | afterwards no entry in any mode translates the page of the address, nor any page of a large page that holds the address |
| `SoftTlb.CpuTlb.SetPage` | qemu-2.4.1/cputlb.c:251-332 | the entry is in place, the one it displaced is in the victim table, large pages are remembered, all else is unchanged |
| `Icount.RoundReaches` | qemu-2.4.1/cpus.c:324-327 | the rounded count is the least whose time reaches the deadline, overshooting by less than one instruction |
| `Icount.VirtualClock.constructor` | qemu-2.4.1/cpus.c:141-180 | a clock at time 0 with nothing outstanding |
| `Icount.VirtualClock.Grant` | qemu-2.4.1/cpus.c:1376-1402 | an old budget is returned, the new one covers the clamped deadline, and the time read does not move |
| `Icount.VirtualClock.Execute` | qemu-2.4.1/cpus.c:141-162 | executing moves the clock by exactly the time of the instructions |
| `Icount.VirtualClock.Expired` | qemu-2.4.1/cpu-exec.c:530-552 | with budget left and no interrupt, the portion is refilled, at most 0xffff and as large as that allows, with what was left over kept; otherwise the rest of the portion is run unless an interrupt is pending; the clock moves by what was executed |
| `Icount.VirtualClock.FoldBack` | qemu-2.4.1/cpus.c:1406-1413 | the counter equals the instructions executed, nothing is outstanding, and the time is the same in and out of the vCPU |
| `Icount.VirtualClock.Adjust` | qemu-2.4.1/cpus.c:271-307 | the shift moves by at most one, in 0 to 10, exactly when the drift asks for it; the time read is kept if and only if nothing is outstanding there, the time of the vCPU if and only if nothing is outstanding or another thread adjusts and the shift stays |
| `Icount.RunGrant` | qemu-2.4.1/cpus.c:1366-1415 | for every sequence of translation blocks and interrupts, the clock moves forward by exactly what was executed, and by less than the deadline and one instruction; a grant used up reaches the deadline; without an interrupt the loop is left only then; what is folded back is at most the grant |
| `Icount.RunTurns` | qemu-2.4.1/cpus.c:271-321 | over every sequence of grants and timer adjustments: no adjustment moves the time of the guest, time never runs backwards, and the counter ends up equal to the instructions executed |
| `Vmcore.SliceInImage` | qemu-2.4.1/dump.c:403-424 | the dumped bytes of a block sit in the image behind those of the blocks before it |
| `Vmcore.ByteInImage` | qemu-2.4.1/dump.c:403-424 | the position computed for an address holds its guest byte |
| `Vmcore.DumpState.GetStartBlock` | qemu-2.4.1/dump.c:1400-1426 | the first block that the filter keeps and the first byte in it; fails exactly if a filter keeps none |
| `Vmcore.DumpState.GetNextBlock` | qemu-2.4.1/dump.c:576-601 | the next block that the filter keeps; done exactly if there is none |
| `Vmcore.DumpState.WriteMemory` | qemu-2.4.1/dump.c:344-367 | page by page, exactly the bytes of the block from start on, a partial page at the end included |
| `Vmcore.DumpState.DumpIterate` | qemu-2.4.1/dump.c:604-629 | appends exactly the kept bytes of all blocks, in order |
| `Vmcore.DumpState.GetOffsetRange` | qemu-2.4.1/dump.c:370-429 | the offset is where the image holds the bytes from the address on, the size is the mapping's cut at the end of the kept part of the block; none exactly if the address is not dumped |
| `Vmcore.SegmentReadsBack` | qemu-2.4.1/dump.c:370-429 | for all blocks, filters and addresses, the bytes written are the guest's at the offset and size that the program header names |
| `GuestPages.GetNextPage` | qemu-2.4.1/dump.c:1000-1044 | the iteration delivers the next page of the block list, with its frame number, and ends exactly after the last |
| `GuestPages.AtPage` | qemu-2.4.1/dump.c:1000-1044 | a cursor in a block stands at a definite page of the concatenated list |
| `GuestPages.VisitsBlocks` | qemu-2.4.1/dump.c:1000-1044 | a frame is visited if and only if it belongs to a block |
| `GuestPages.PagesAscend` | qemu-2.4.1/dump.c:1000-1044 | frames come in strictly increasing order and the last one ends the last block |
| `KdumpBitmap.BitsOfByte` | qemu-2.4.1/dump.c:982-989 | bit k of byte b of the bitmap stands for frame 8b + k |
| `KdumpBitmap.SetBitOfByte` | qemu-2.4.1/dump.c:982-989 | setting or clearing one bit adds or removes one frame |
| `KdumpBitmap.WindowOfByte` | qemu-2.4.1/dump.c:959-984 | a frame's byte in the file and its byte in the buffered window correspond |
| `KdumpBitmap.FlushWindow` | qemu-2.4.1/dump.c:959-980 | writing the window to both copies and clearing the buffer keeps the file equal to the recorded set |
| `KdumpBitmap.ChangeBit` | qemu-2.4.1/dump.c:982-989 | changing a bit in the buffer records the change and disturbs no other frame |
| `KdumpBitmap.WindowsFill` | qemu-2.4.1/dump.c:1514-1516 | the windows up to the last frame's fill the bitmap length exactly, so no write reaches past its own copy |
| `KdumpBitmap.BitmapWriter.SetDumpBitmap` | qemu-2.4.1/dump.c:943-992 | flushes every window passed over and records the bit |
| `KdumpBitmap.BitmapWriter.WriteDumpBitmap` | qemu-2.4.1/dump.c:1046-1094 | in both copies bit p is set if and only if frame p is in a block; nothing outside the copies changes; the page count is right |
| `KdumpPages.FlushStreamed` | qemu-2.4.1/dump.c:1120-1128 | flushing a cache puts its part of the stream in the file at the right offset |
| `KdumpPages.CacheStreamed` | qemu-2.4.1/dump.c:1130-1133 | buffering appends to the stream without touching the file |
| `KdumpPages.TableEntry` | qemu-2.4.1/dump.c:1305-1314 | entry k of the descriptor table is the descriptor of page k, and the table has one entry per page |
| `KdumpPages.DescriptorPoints` | qemu-2.4.1/dump.c:1227-1315 | offset and size of a descriptor delimit the stored form of its page in the data area |
| `KdumpPages.PagesWriter.WriteCache` | qemu-2.4.1/dump.c:1106-1136 | file and cache together are the stream written so far, whether or not the cache was full or synced |
| `KdumpPages.PagesWriter.WritePage` | qemu-2.4.1/dump.c:1227-1315 | one page extends both streams by its descriptor and, unless it is zero, its stored form |
| `KdumpPages.PagesWriter.WriteAllPages` | qemu-2.4.1/dump.c:1223-1316 | after the loop both streams are complete |
| `KdumpPages.PagesWriter.SyncCaches` | qemu-2.4.1/dump.c:1318-1327 | after the last syncs both streams are in the file |
| `KdumpPages.PagesWriter.WriteDumpPages` | qemu-2.4.1/dump.c:1173-1338 | the file holds the descriptor table and, right behind it, the data area; nothing before the page offset changes |
| `KdumpPages.PageReadsBack` | qemu-2.4.1/dump.c:1173-1338 | following the table entry of any page leads to its stored form; zero pages all share the first slot |
| `KdumpFile.PageOffset` | qemu-2.4.1/dump.c:908-914 | the page offset is the end of the second bitmap copy, modulo 2^32 |
| `KdumpFile.PagesBehindBitmapIff` | qemu-2.4.1/dump.c:908-914 | the pages lie behind both bitmap copies if and only if these end below 4 GiB; otherwise the pages start before their end |
| `KdumpFile.LargeGuestOverlaps` | qemu-2.4.1/dump.c:908-914 | with 2^34 page frames the pages start before the end of the bitmap |
| `KdumpFile.WriteKdump` | qemu-2.4.1/dump.c:1340-1397 | bitmap and pages written to one file: table and data area read back, and so do both bitmap copies whenever the layout keeps them apart; nothing before the bitmap changes then |
| `BlockGraph.SetBackingOk` | qemu-2.4.1/block.c:1138-1170 | every node stays blocked by exactly its overlays; blockers of other origin stay where they are |
| `BlockGraph.SetBackingCount` | qemu-2.4.1/block.c:1138-1170 | how often each reason blocks each operation on each node afterwards, commit target excepted |
| `BlockGraph.ChainDistinct` | qemu-2.4.1/block.c:2385-2393 | a chain that ends visits no node twice |
| `BlockGraph.NoOverlayLeft` | qemu-2.4.1/block.c:2495-2501 | a node held only by the chain has no overlay left when its turn comes |
| `BlockGraph.DropOne` | qemu-2.4.1/block.c:2495-2501 | detaching and unreferencing one node: no blocker of its old overlay is left, none at all if it is deleted, and the rest of the graph stays consistent |
| `BlockGraph.BlockDrivers.OpBlockAll` | qemu-2.4.1/block.c:3664-3670 | the reason is added once to every operation of the node |
| `BlockGraph.BlockDrivers.OpUnblockAll` | qemu-2.4.1/block.c:3672-3678 | the reason goes from every operation of the node |
| `BlockGraph.BlockDrivers.SetBackingHd` | qemu-2.4.1/block.c:1138-1170 | the edge and its blockers move together |
| `BlockGraph.BlockDrivers.Unref` | qemu-2.4.1/block.c:3610-3619 | one reference less, and deletion exactly with the last; the assertions of `bdrv_delete` are preconditions that callers meet |
| `BlockGraph.BlockDrivers.FindOverlay` | qemu-2.4.1/block.c:2385-2393 | the chain node right above the one asked for, none if it is not below the active one, the bottom one for no node |
| `BlockGraph.BlockDrivers.CollectIntermediates` | qemu-2.4.1/block.c:2466-2486 | the queue is the chain from top to just above base, in order; not found exactly if base is not below |
| `BlockGraph.BlockDrivers.DeleteAll` | qemu-2.4.1/block.c:2495-2501 | each queued node loses its backing node and one reference |
| `BlockGraph.BlockDrivers.DropIntermediate` | qemu-2.4.1/block.c:2436-2509 | exactly when it succeeds; then the overlay sits on base, each intermediate has one reference less or is gone, all other nodes are as before and overlays still hold references; on failure the graph is unchanged |
| `BlockGraph.OverlaysAfter` | qemu-2.4.1/block.c:2436-2509 | which overlays a node has after the drop |
| `BlockGraph.OverlaysBefore` | qemu-2.4.1/block.c:2436-2509 | which of the moved edges ended at a node before the drop |
| `BlockGraph.DropConservesRefs` | qemu-2.4.1/block.c:2436-2509 | each surviving node keeps exactly its references that are not overlays' edges; base gets the overlay's for the lowest intermediate's |
| `BlockGraph.DropKeepsRefs` | qemu-2.4.1/block.c:2436-2509 | every overlay still holds a reference on its backing node, so drops compose |
| `BlockGraph.DropBlocksBase` | qemu-2.4.1/block.c:2436-2509 | of the chain's nodes only the overlay blocks base afterwards, for all but committing into it |
| `BlockCommit.Overlay.GrowBacking` | qemu-2.4.1/block.c:2257-2265 | growing the backing image with zeroes does not change what the guest sees |
| `BlockCommit.Overlay.CopyRun` | qemu-2.4.1/block.c:2282-2292 | only the sectors of the run change; on success they hold the overlay's data |
| `BlockCommit.CopyKeepsView` | qemu-2.4.1/block.c:2282-2292 | whatever lands in the backing image under the overlay's own sectors is invisible |
| `BlockCommit.SameView` | qemu-2.4.1/block.c:2295-2301 | dropping sectors that the backing image has as well is invisible |
| `BlockCommit.AllCopied` | qemu-2.4.1/block.c:2277-2293 | once every own sector is copied the backing image reads as the guest's view |
| `BlockCommit.Overlay.MakeEmpty` | qemu-2.4.1/block.c:2295-2301 | emptying the overlay, even half-way, does not change what the guest sees |
| `BlockCommit.Overlay.CommitWritable` | qemu-2.4.1/block.c:2245-2311 | the guest's view is kept on success and on every error after the image was reopened |
| `BlockCommit.Overlay.Commit` | qemu-2.4.1/block.c:2216-2321 | the guest's view is the same after success and after every error; which error comes when; on success the backing image alone reads as that view |
| `DirtyBitmaps.GranulesTouch` | qemu-2.4.1/block.c:3575-3585 | a granule is marked if and only if some sector of the write lies in it |
| `DirtyBitmaps.WroteSound` | qemu-2.4.1/block.c:3575-3585 | a write keeps bitmap and successor equal to the history of calls, for frozen, enabled and disabled bitmaps |
| `DirtyBitmaps.ChangedSound` | qemu-2.4.1/block.c:3482-3492 | clearing, enabling and disabling keep them equal too |
| `DirtyBitmaps.FrozeSound` | qemu-2.4.1/block.c:3372-3398 | freezing loses nothing and starts an empty record |
| `DirtyBitmaps.AbdicatedSound` | qemu-2.4.1/block.c:3404-3424 | the successor holds exactly the writes since the freeze, as the history of calls gives them |
| `DirtyBitmaps.ReclaimedSound` | qemu-2.4.1/block.c:3431-3450 | the union is what bitmap and successor held together; size and granularity agree |
| `DirtyBitmaps.RunSound` | qemu-2.4.1/block.c:3315-3480 | after every run of calls the list is well-formed and every bitmap is what the history says |
| `DirtyBitmaps.DirtyBitmapList.Create` | qemu-2.4.1/block.c:3315-3345 | a fresh empty bitmap, or nothing exactly if the name is taken |
| `DirtyBitmaps.DirtyBitmapList.Write` | qemu-2.4.1/block.c:3575-3585 | every enabled bitmap takes the granules, no other changes, and the write joins the history |
| `DirtyBitmaps.DirtyBitmapList.Clear` | qemu-2.4.1/block.c:3569-3573 | only the named bitmap is emptied, and the clear joins the history |
| `DirtyBitmaps.DirtyBitmapList.SetDisabled` | qemu-2.4.1/block.c:3482-3492 | only the flag of the named bitmap changes |
| `DirtyBitmaps.DirtyBitmapList.CreateSuccessor` | qemu-2.4.1/block.c:3372-3398 | fails exactly on a frozen bitmap; otherwise freezes it behind an empty anonymous one |
| `DirtyBitmaps.DirtyBitmapList.Abdicate` | qemu-2.4.1/block.c:3404-3424 | fails exactly without a successor; otherwise the name goes to a bitmap holding exactly the writes since the freeze, computed from the history of calls |
| `DirtyBitmaps.DirtyBitmapList.Reclaim` | qemu-2.4.1/block.c:3431-3450 | fails exactly without a successor; otherwise the bitmap is exactly the union, which is what was written since the last clear, and the merge cannot fail |
| `DirtyBitmaps.DirtyBitmapList.Release` | qemu-2.4.1/block.c:3467-3480 | exactly the named bitmap goes |
| `DirtyBitmaps.NothingLostNorInvented` | qemu-2.4.1/block.c:3315-3480 | after every run of calls: bitmap and successor hold exactly the granules written since the last clear while not disabled, the successor exactly those since the freeze, and names are unique |

## Left out

- RCU grace periods, Xen, IOMMU translation, host memory mapping, watchpoints and dirty-memory tracking around the modelled functions.
- Subpages are values in a sequence, found by a handle in their section; that two sections could alias one subpage object is not captured, nor is the flash path that redirects sections at run time.
- Sections of size zero and overlapping sections: the memory core only hands out nonempty, disjoint ranges of a flat view.
- The `AioContext` and bounce-buffer protocols are state machines over values, each step one access in sequential order; weak memory order, timers, the glib source callbacks, `aio_context_acquire` and an `aio_poll` nested in a callback of the poller are not in the wakeup model.
- In `AioWakeup` deleted bottom halves stay in the list; their removal is the subject of `AioLists`.
- `AioWakeup.NoLostWakeup`: a flag raised by idle scheduling, or a bottom half marked idle since its flag was raised, is outside the claim, since idle scheduling does not notify; `ScheduleWakesIff` and `IdleThenScheduleIsLost` state what happens to it. The 10 ms limit on a poll that saw an idle bottom half is not modelled.
- In `AioLists` walks are an unordered collection of frames, which allows more interleavings than proper nesting does.
- Allocation of host memory, migration bitmaps and resizing of RAM blocks; blocks have a nonzero page-aligned maximal length, which `qemu_ram_alloc_internal` ensures.
- The exchange of main and victim TLB entries on a hit, dirty tracking and other users of the flag bits in TLB entries; addresses have 64 bits.
- Overflow of the 64-bit instruction and time counters; vCPU threads, clock warping and KVM.
- `Icount.RunTurns`: that adjustments fall between grants is built into the turns; in the source the global mutex sees to it, since `icount_adjust` runs in timers of the main loop and a vCPU thread lets go of the mutex only after its fold-back.
- `Vmcore`: the end of a filter, `begin + length`, is unbounded and cannot overflow as the source's `int64_t` can.
- ELF and kdump headers and notes, write errors, byte order and the compression libraries of the dump; compression and serialization are arbitrary functions of the page and the descriptor, and the size of the sub header is a parameter.
- `Vmcore.SegmentReadsBack`: an empty block list without a filter is excluded, since the source then follows a null pointer.
- `KdumpBitmap.BitmapWriter.WriteDumpBitmap`: blocks are page-aligned, sorted and nonempty, as the source asserts or assumes.
- Block drivers, filenames, option dictionaries, `bs->file` and other children; drivers are sector maps, and lengths are whole sectors.
- The tree structure inside an `HBitmap`, resetting and setting ranges by clients, and truncation of dirty bitmaps when the device is resized.
- `DirtyBitmaps.DirtyBitmapList.Clear`: clients name only bitmaps that are not the hidden successor of another; the same holds for the other client calls.
- Monitor commands, block jobs, coroutines, the debugger stub and device emulation: they would add easier members only.
