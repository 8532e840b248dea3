# Verified models of the moose kernel

A Dafny model of the stateful core of the moose operating system, with proofs
about every input, every run or every reachable state. Operations that change
things in place are classes with arrays, maps and loops, each proved equal to a
specification function; the theorems are about those functions.

- **Red-black tree in an arena** (`OrderedList`, `RbShape`, `RbCounts`, `RbRuns`,
  `RbArena`, `RbTree`). `RbShape` gives insertion and removal as functions on trees
  and paths to the root, `RbCounts` what the removal does to the black nodes on each
  path, `RbRuns` what whole runs do, `RbArena` says when cells with parent links
  realise a tree, `RbTree` is the pointer code. Handles are numbers that are never
  reused.
- **Timer queue** (`Timer`) on that tree, with the drain loop of the timer
  interrupt.
- **Page tables** (`PageWalk`, `PageMap`, `PageFlat`, `PageGrants`,
  `PageAddress`, `PageSizes`, `PageEntryBits`, `PageScan`, `PageCount`, `PageRuns`,
  `PageRunGrants`, `PageManager`, `PageClash`, `PageSpaces`, `FrameRuns`). Physical memory is a map from frame
  address to a table of 512 entries; a ghost map gives each table its one place
  (address space, level, index path). `PageFlat` shows the whole to be a flat map
  from page to translation, `PageSpaces` one map per lower half and one shared;
  `PageGrants` and `PageRunGrants` say what becomes of the flags of every entry.
  The scans and the frame allocator are modelled in place; `PageRuns` gives the
  search for a run of free pages as a function over pages, `PageCount` the tables
  that an operation adds.
- **Hyper-V transmit ring** (`TxRing`): the byte ring, the packet framing, and the
  queue of packets they implement.
- **FAT32 chains and file data** (`FatChain`, `FatData`, `Fat`).
- **Scheduler** (`SchedulerModel`, `Scheduler`) as a step system over thread
  status, flag, queues and current thread, and the one-shot gate (`Gate`) as the
  interleaving of its two threads.
- **TTL cache** (`TtlCacheModel`, `TtlCache`), **DNS names and records** (`Dns`),
  **integer square root** (`Sqrt`), **clock conversion** (`Clock`).
- Shared: `Prelude`, `Arithmetic`, and `Pieces` for sequences made of pieces.

The clock, the root page table and the check for well-formed UTF-8 are
parameters. `Panicked` and a missing result stand for failed assertions.

Properties that the code does not have are stated with the exact condition under
which it does: black height and logarithmic height after `remove`
(`RbShape.DetachRedBlack`, `RbRuns.RunRedBlack`, `RbCounts.BorrowedCounts`), the end of the timer interrupt
(`Timer.StuckForever`) and the timers it fires (`Timer.HrTimer.Drain`), the upper
half of two address spaces (`PageSpaces.AgreeExactly`), the rights to a page in
another space (`PageGrants.SharedRights`), a free page that can be
mapped (`PageCount.MapTakes`), free pages found in a row (`PageRuns.SearchExact`)
and only those written (`PageRuns.RunExtent`), the range returned for them
(`PageAddress.RangeMissesLast`), frames in a row (`FrameRuns.RowExact`), the count
of allocated clusters (`FatChain.AllocatesOneMore`), data read back after a write
(`Fat.ReadsBackExactly`), threads queued once (`SchedulerModel.RunKeeps`), the
wake-up at a gate (`Gate.OpenedGate`), names with empty labels (`Dns.RoundTrip`)
and in many pieces (`Dns.CompressedRead`), packets longer than their length field
(`TxRing.ConsumedIsSent`), the square root of the largest word (`Sqrt.Sqrt`).

`dafny verify dfyconfig.toml` checks the whole project.

## Model

| member | source | states |
|---|---|---|
| `RbShape.InsertRefines` | common/src/rb_tree.rs:82-128 | Insertion, descent and fixup included, has the same in-order entries as inserting into the sorted list of entries: a new key goes to its place with a new handle, a known key keeps its handle and gets the new value. |
| `OrderedList.InsertIsUpdate` | common/src/rb_tree.rs:82-128 | Inserting into the sorted list is `map[key := value]` on the map it stands for, and keeps it strictly sorted. |
| `OrderedList.RemoveIsErase` | common/src/rb_tree.rs:133-142 | Removing from the sorted list erases exactly that key from the map it stands for, and keeps it strictly sorted. |
| `RbShape.SearchDecides` | common/src/rb_tree.rs:56-66 | Where the search path stops decides membership: at a node with the key its value is the map's value, off the tree the key is absent. |
| `RbShape.PlugRedBlack` | common/src/rb_tree.rs:439-461 | A tree seen from a node on any path is red-black if and only if the subtree and its surroundings are, with matching black height and no red edge between them. |
| `RbShape.InsertFixRedBlack` | common/src/rb_tree.rs:439-511 | From a red node that may have a red parent, the fixup loop restores every red-black rule, for every height and colouring of the rest. |
| `RbShape.InsertRedBlack` | common/src/rb_tree.rs:82-128 | Insertion into any valid red-black tree gives a valid red-black tree. |
| `RbShape.HeightBound` | common/src/rb_tree.rs:56-66 | 2^height <= (n+1)^2 for every red-black tree of n keys: the height is at most 2 log2(n+1). |
| `RbRuns.InsertRunBalanced` | common/src/rb_tree.rs:82-128 | After every insert-only run the tree is red-black and its height is at most 2 log2(n+1). |
| `RbShape.RemoveRefines` | common/src/rb_tree.rs:133-142 | For every sorted tree of any colouring, removal with its fixup has the in-order entries of the list with that key erased: nothing lost, nothing reordered. |
| `RbShape.DetachRedBlack` | common/src/rb_tree.rs:252-273 | A valid red-black tree is still one after removing a node if and only if the physically unlinked node was red, or had a child, or was the whole tree. |
| `RbShape.RemoveRedBlack` | common/src/rb_tree.rs:133-142 | The same for a removal by key, from the root down; an absent key keeps every rule. |
| `RbRuns.RunRedBlack` | common/src/rb_tree.rs:82-142 | Over every run of insertions and removals from empty: the tree is red-black throughout if and only if every removal met that condition when it came, and then its height is at most 2 log2(n+1). |
| `RbRuns.RemovalsDegenerate` | common/src/rb_tree.rs:3-5 | For every n there is a run that ends in a tree of n keys or more in one single path, over the logarithmic height that the documentation guarantees. |
| `RbRuns.BlackLeafCounterexample` | common/src/rb_tree.rs:524-534 | Six operations from empty that end in a tree that is not red-black; the fifth left a valid one. |
| `RbShape.DeleteFixRootBlack` | common/src/rb_tree.rs:524-615 | The delete fixup leaves a black root black, in every case of the loop. |
| `RbCounts.LoweredCounts` | common/src/rb_tree.rs:575-582 | Taking a red sibling above the parent keeps the number of black nodes on every path if the parent was black; under a red parent each path gains one. |
| `RbCounts.RecoloredCounts` | common/src/rb_tree.rs:586-591 | Painting a black sibling red takes one from every path through it and keeps those through the focus. |
| `RbCounts.ReadiedCounts` | common/src/rb_tree.rs:593-602 | Turning the sibling until the child on the side of the focus is red keeps every path through it. |
| `RbCounts.BorrowedCounts` | common/src/rb_tree.rs:604-615 | The last round gives every path through the focus the black node it lacked, but of the paths beside it those nearer to the focus gain one too and the others lose one, for every tree and colouring: why removal unbalances the tree. |
| `RbShape.InsertRootBlack` | common/src/rb_tree.rs:439-461 | Insertion keeps the root black, so a red parent always has a grandparent. |
| `RbShape.RemoveRootBlack` | common/src/rb_tree.rs:133-142 | Removal leaves the root absent or black. |
| `RbRuns.RunAgreesWithMap` | common/src/rb_tree.rs:82-142 | Over every interleaving of insertions and removals from empty: keys strictly sorted, root absent or black, contents equal to a plain map that takes the same operations. |
| `RbArena.RewireAt` | common/src/rb_tree.rs:366-428 | The pointer writes of a rotation turn the linked arena of a tree into the linked arena of the rotated tree, parent links included, and leave every other cell alone. |
| `RbArena.SplicedOut` | common/src/rb_tree.rs:276-300 | An arena in which the successor has been spliced out of its place holds, seen from the node that is removed, the tree without the successor; the handle of the successor is nowhere in it. |
| `RbArena.FreeAt` | common/src/rb_tree.rs:133-142 | Freeing the unlinked cell leaves exactly the cells of the remaining tree in the arena. |
| `RbTree.RedBlackTree.constructor` | common/src/rb_tree.rs:22-29 | An empty tree: no root, length 0, no keys. |
| `RbTree.RedBlackTree.LeftRotate` | common/src/rb_tree.rs:366-394 | In place on the arena, realises the left rotation at any path; every cell keeps its key and value. |
| `RbTree.RedBlackTree.RightRotate` | common/src/rb_tree.rs:405-428 | The mirror image. |
| `RbTree.RedBlackTree.InsertFixup` | common/src/rb_tree.rs:439-461 | The loop over parent pointers realises the fixup of the tree shape; its `expect` cannot fail while the root is black. |
| `RbTree.RedBlackTree.InsertFixupIteration` | common/src/rb_tree.rs:477-511 | One round recolours or rotates in place; the distance to the root falls, and the tree the whole fixup ends with is unchanged. |
| `RbTree.RedBlackTree.DeleteFixupIteration` | common/src/rb_tree.rs:565-615 | One round of the delete fixup in place, all sibling and nephew cases; the depth of the extra black falls or the loop ends, and the tree the whole fixup ends with is unchanged. |
| `RbTree.RedBlackTree.RotateIn` | common/src/rb_tree.rs:328-333 | Rotates towards a side: the child on the other side moves up. |
| `RbTree.RedBlackTree.RotateOut` | common/src/rb_tree.rs:342-347 | Rotates away from a side: the child on that side moves up. |
| `RbTree.RedBlackTree.NephewColors` | common/src/rb_tree.rs:224-231 | The colours of the two children of a sibling; a missing sibling or child counts as black. |
| `RbTree.RedBlackTree.SubtreeMin` | common/src/rb_tree.rs:193-201 | The cell of the least key below a node. |
| `RbTree.RedBlackTree.FindNode` | common/src/rb_tree.rs:56-66 | Returns a handle if and only if the key is in the map, to a cell with that key and value, in at most `height` steps, so at most 2 log2(len+1) on a red-black tree. |
| `RbTree.RedBlackTree.Min` | common/src/rb_tree.rs:69-71 | The first key in order, or none if empty. |
| `RbTree.RedBlackTree.WalkInOrder` | common/src/rb_tree.rs:152-157 | Visits the keys of the subtree in ascending order, each once and with the colour of its node. |
| `RbTree.RedBlackTree.Insert` | common/src/rb_tree.rs:82-128 | The map becomes `map[key := value]`; the returned handle names the key, all other handles still name their keys and values; length grows exactly for new keys; a red-black tree stays one. |
| `RbTree.RedBlackTree.Transplant` | common/src/rb_tree.rs:303-315 | Puts one subtree in the place of another: parent, child and root links, and no other field. |
| `RbTree.RedBlackTree.DetachNode` | common/src/rb_tree.rs:252-273 | Unlinks a node with zero, one or two children; the arena is linked as the specified shape and the length drops by one. |
| `RbTree.RedBlackTree.DetachTwoChildren` | common/src/rb_tree.rs:276-300 | Moves the in-order successor into the node's place with the node's colour, both when it is the right child and when it is deeper. |
| `RbTree.RedBlackTree.DeleteFixup` | common/src/rb_tree.rs:524-549 | For every well-linked tree of any colouring the loop terminates, no rotation lacks its child, and the arena is linked as the specified shape. |
| `RbTree.RedBlackTree.Remove` | common/src/rb_tree.rs:133-142 | The map loses exactly the key and its value is returned; the length drops by one; every other handle keeps its key and value, and the freed handle is gone; the arena stays well linked. |
| `Timer.KeyLessIsOrder` | kernel/src/subsystem/clock/timer.rs:94-100 | Expiry first, registration order second: a strict total order on queue keys. |
| `Timer.PeriodicFirings` | kernel/src/driver/apic/local_apic.rs:356-377 | A due periodic timer (e, p) owes exactly floor((now-e)/p)+1 firings, one each at e, e+p, e+2p, … and none later. |
| `Timer.PeriodicLeftover` | kernel/src/subsystem/clock/timer.rs:260-278 | It leaves itself at the first of those instants that is later than now, or at the last representable one. |
| `Timer.OneShotFirings` | kernel/src/subsystem/clock/timer.rs:260-278 | A timer that is not due owes nothing and stays; a due one that does not repeat owes itself once and leaves nothing. |
| `Timer.PollPays` | kernel/src/subsystem/clock/timer.rs:198-205 | A poll without a stuck timer pays exactly one owed firing, and conserves the rest and everything left over if and only if the key under which the timer goes back is not in use; else the timer that was there is lost. |
| `Timer.RoomClashless` | kernel/src/subsystem/clock/timer.rs:207-229 | No key is met again within k polls while the next k numbers of the order counter, counted round its wrap, are not in the queue. |
| `Timer.ClashLoses` | kernel/src/subsystem/clock/timer.rs:207-229 | A queue where the counter has come round to the number of a waiting timer: the next poll loses that timer. |
| `Timer.PollAdvances` | kernel/src/subsystem/clock/timer.rs:198-205 | After a poll every key in the queue is greater than the one taken, and the queue is in order. |
| `Timer.NothingOwed` | kernel/src/subsystem/clock/timer.rs:235-242 | A queue whose first timer is not due owes no firing at all. |
| `Timer.StuckForever` | kernel/src/subsystem/clock/timer.rs:260-278 | A queue with a due periodic timer whose interval is zero, or that is at the last representable instant, has a due timer after every number of polls, as long as none of them loses a timer; without one, `Drain` ends. |
| `Timer.FirstAtIsEarliest` | kernel/src/subsystem/clock/timer.rs:248-256 | The key found for an expiry is the earliest registered one with that expiry. |
| `Timer.HrTimer.constructor` | kernel/src/subsystem/clock/timer.rs:104-109 | An empty queue with order counter 0. |
| `Timer.HrTimer.InsertTimer` | kernel/src/subsystem/clock/timer.rs:207-229 | Queues the timer under (expiry, order); its handle names it, all other handles keep theirs; the order counter wraps at 64 bits; the queue grows by one if and only if the key was not in use. |
| `Timer.HrTimer.NextExpiry` | kernel/src/subsystem/clock/timer.rs:181-183 | The expiry of the least key, or none. |
| `Timer.HrTimer.ReinsertPeriodic` | kernel/src/subsystem/clock/timer.rs:260-278 | Queues a periodic timer again at the saturating sum of expiry and interval; a one-shot is not queued. |
| `Timer.HrTimer.PollExpired` | kernel/src/subsystem/clock/timer.rs:198-205 | Returns the timer of the least key if and only if it is due, and queues it again if periodic. |
| `Timer.HrTimer.Cancel` | kernel/src/subsystem/clock/timer.rs:162-171 | Succeeds if and only if the handle names a queued timer; removes that timer and no other, and handles are not reused. |
| `Timer.HrTimer.RemoveTimer` | kernel/src/subsystem/clock/timer.rs:151-159 | Succeeds if and only if some timer expires then; removes the earliest registered of them and no other. |
| `Timer.HrTimer.Drain` | kernel/src/driver/apic/local_apic.rs:356-377 | For every queue and counter: without a stuck timer the interrupt loop terminates; the next expiry is later than now; fired keys strictly increase; nothing fires that is not owed; the timers fired and those left are exactly those owed and left over, as multisets, if and only if no timer goes back under a key in use. |
| `PageWalk.OneParentUnderRoot` | kernel/src/subsystem/memory.rs:1014-1029 | Under one root no table has two parents: two slots that lead to the same table are the same slot of the same table. |
| `PageWalk.LinkTable` | kernel/src/subsystem/memory.rs:1014-1029 | Hanging a fresh empty table into an absent slot changes no translation of any address space. |
| `PageWalk.Reflag` | kernel/src/subsystem/memory.rs:1031-1043 | Passing permissions down the walk changes no translation of any address space. |
| `PageWalk.SlotElsewhere` | kernel/src/subsystem/memory.rs:544-684 | Rewriting a slot leaves every walk that does not pass through it unchanged. |
| `PageWalk.ReachSpace` | kernel/src/kernel.rs:593-608 | Tables met below the lower half belong to the root the walk began at, those of the upper half to none. |
| `PageMap.DescendLemma` | kernel/src/subsystem/memory.rs:544-684 | The walk down changes no translation anywhere, adds tables that have one place each, and ends at the level-1 table of the page or at a huge page. |
| `PageMap.MapLemma` | kernel/src/subsystem/memory.rs:544-684 | In every state of the invariant a successful map sets the page, in the spaces that share its table, and no other page of any space; on already-mapped, huge-page or out-of-frames nothing changes; each answer says what was mapped. |
| `PageGrants.MapGrants` | kernel/src/subsystem/memory.rs:544-684 | The whole effect of a map on the entries of all tables, whatever it answers: each entry on the way keeps its address and gains exactly the writable and user flags asked for; the entry of a page that gets mapped has exactly the flags asked for; new tables are empty elsewhere; no other slot of any table changes. |
| `PageGrants.MapRights` | kernel/src/subsystem/memory.rs:1031-1043 | In the space where it is mapped a page may be written, and used by user code, if and only if that was asked for: all entries on the way and the leaf together allow it. |
| `PageGrants.SharedRights` | kernel/src/subsystem/memory.rs:1031-1043 | From another space that shares the page it may be so used if and only if that was asked for and the entry in the root of that space allows it: the walk does not come by that entry. |
| `PageGrants.RunKeepsRights` | kernel/src/subsystem/memory.rs:544-684 | Over every run of maps and unmaps in any spaces, a page keeps the rights it was mapped with as long as it stays mapped: no later map of another page widens or narrows them. |
| `PageMap.UnmapLemma` | kernel/src/subsystem/memory.rs:844-1012 | Unmap answers by what is mapped, and removes the page of whatever size, in the spaces that share it, and nothing else. |
| `PageMap.LowerUnshared` | kernel/src/kernel.rs:593-608 | Different address spaces share no page of the lower half. |
| `PageMap.CreateLemma` | kernel/src/kernel.rs:593-608 | A new address space maps no lower-half page, has the entries of the kernel table in its upper half, flags included, and changes no existing translation. |
| `PageMap.RunKeepsAgreement` | kernel/src/subsystem/memory.rs:544-684 | Over every run of maps and unmaps in either space, of lower-half pages and of upper-half pages whose top slot was present at creation, both agree on the whole upper half. |
| `PageSpaces.AgreeExactly` | kernel/src/subsystem/memory.rs:544-684 | Over every run of maps and unmaps in two related spaces: they agree on the whole upper half throughout if and only if no page is ever mapped below an upper slot that they do not share. |
| `PageSpaces.TwinsRelated` | kernel/src/kernel.rs:593-608 | A new address space and the one it was copied from are so related, with the slots present at creation shared. |
| `PageSpaces.AbsentSlotSplits` | kernel/src/kernel.rs:593-608 | With any upper slot absent at creation and three frames left, mapping the first page below it in one of the two makes them differ. |
| `PageMap.RunIsolatesLowerHalf` | kernel/src/subsystem/memory.rs:844-1012 | Over every run of lower-half maps and unmaps in one space, no translation of the other changes. |
| `PageFlat.RunIsFlat` | kernel/src/subsystem/memory.rs:544-684 | Over every run of maps and unmaps, translations of pages of all sizes equal a flat map that takes the same operations, and every answer is the one that map gives: already mapped or huge page by what the page is mapped to; a free page fails if and only if fewer frames are left than tables are missing on the way to it. |
| `PageFlat.EveryRunIsFlat` | kernel/src/subsystem/memory.rs:844-1012 | The same from any state of the tables, huge pages included: the flat map of the tables after a run is the flat map before it with the same operations done to it. |
| `PageFlat.FreshSpace` | kernel/src/subsystem/memory.rs:544-684 | A zeroed root table is such a state, with no page mapped. |
| `PageSpaces.RunIsSpaces` | kernel/src/subsystem/memory.rs:544-684 | Over every run of maps and unmaps in any number of address spaces: translations equal one flat map per lower half and one that all share, which take the same operations, and every answer is the one that the map concerned gives. |
| `PageSpaces.FamilyShows` | kernel/src/subsystem/memory.rs:544-684 | Any tables with shared upper slots stand for such maps. |
| `PageSpaces.CreateJoins` | kernel/src/kernel.rs:593-608 | A new address space joins the spaces whose slots it copied, with the same slots shared. |
| `PageAddress.CanonicalIsSignExtended` | kernel/src/subsystem/memory.rs:1497-1500 | The canonical test of the walks holds exactly for addresses equal to their sign extension. |
| `PageAddress.AddressDigits` | kernel/src/subsystem/memory.rs:371-499 | The four index fields cut out of an address are the base-512 digits of its page number. |
| `PageAddress.AddressOfPage` | kernel/src/subsystem/memory.rs:1497-1500 | Every canonical address is the address of its page plus its offset. |
| `PageAddress.NextAddress` | kernel/src/subsystem/memory.rs:308-346 | The next page number is the next 4096 bytes, except across the canonical gap. |
| `PageAddress.ConsecutiveExact` | kernel/src/subsystem/memory.rs:308-346 | The addresses of pages in a row are 4096 bytes apart if and only if the row does not lie on both sides of the canonical gap. |
| `PageAddress.RangeMissesLast` | kernel/src/subsystem/memory.rs:1240-1267 | A range that ends with the address of the last page, as the code returns it, contains all pages but the last; it counts one less than there are if and only if the gap does not lie between. |
| `PageAddress.MapTranslates` | kernel/src/subsystem/memory.rs:371-499 | After a successful map each of the 4096 addresses of the page translates to frame plus offset, and every other address as before; after a failed one all as before. |
| `PageSizes.PageTranslates` | kernel/src/subsystem/memory.rs:371-499 | Where a page of any size is mapped, each of its 4096, 4096*512 or 4096*512*512 addresses translates to the frame plus the offset in the page. |
| `PageSizes.UnmapTranslates` | kernel/src/subsystem/memory.rs:844-1012 | For every page address: unmap finds no mapping, or panics if the address is not aligned to the size of the page mapped there, or succeeds; then exactly the 4 KiB, 2 MiB or 1 GiB of addresses of the page no longer translate. |
| `PageAddress.UsableFramesDistinct` | kernel/src/subsystem/memory.rs:1131-1144 | If the usable regions do not overlap, the allocator never gives a frame out twice. |
| `PageAddress.UsableFramesExact` | kernel/src/subsystem/memory.rs:1131-1144 | The allocator hands out the frames of the usable regions, all of them and no others. |
| `FrameRuns.RowExact` | kernel/src/subsystem/memory.rs:41-53 | The frames of a request for several are in a row if and only if the request is no longer than the rest of its region and of the regions that abut it; the comment in the source has them contiguous always. |
| `FrameRuns.SplitRequest` | kernel/src/subsystem/memory.rs:41-53 | A memory map of two one-frame regions where two frames asked for together are not in a row. |
| `PageEntryBits.AddressStored` | kernel/src/subsystem/memory.rs:1185-1195 | On the 64-bit word, storing an aligned address below 2^52 changes the address and keeps all ten flags. |
| `PageEntryBits.FlagsStored` | kernel/src/subsystem/memory.rs:1197-1204 | On the 64-bit word, storing flags replaces the flags and keeps the address. |
| `PageEntryBits.FlagPlaces` | kernel/src/subsystem/memory.rs:1222-1236 | Nine flags are the low nine bits of the word in their order, the no-execute flag is bit 63. |
| `PageScan.MapSucceeds` | kernel/src/subsystem/memory.rs:544-684 | A free page whose tables exist can always be mapped. |
| `PageScan.DescendTwice` | kernel/src/subsystem/memory.rs:686-842 | Adding the tables that are missing on the way to a page, and walking down with flags after that, is walking down at once. |
| `PageCount.MapTakes` | kernel/src/subsystem/memory.rs:544-684 | Mapping a free page fails if and only if fewer frames are left than tables are missing on the way to it, and takes exactly that many frames. |
| `PageScan.UnmapUndoesMap` | kernel/src/subsystem/memory.rs:67-82 | Unmapping a page just mapped restores every translation of every address space. |
| `PageManager.MemoryManager.AllocateFrame` | kernel/src/subsystem/memory.rs:1131-1144 | The frame numbered by the counter, or none past the end; the counter moves on either way. |
| `PageManager.MemoryManager.AllocateFramesContiguous` | kernel/src/subsystem/memory.rs:41-53 | Returns the first of the frames taken if and only if there are enough; they are in a row if and only if the row in the memory map was long enough. |
| `PageManager.MemoryManager.AllocateLowerLevelPageTable` | kernel/src/subsystem/memory.rs:1014-1029 | Writes an empty table into the next frame and a present entry for it, or fails with no table changed. |
| `PageManager.MemoryManager.AssignPropagableFlags` | kernel/src/subsystem/memory.rs:1031-1043 | The entry keeps its address and gains exactly the writable and user flags that were asked for; no other slot changes. |
| `PageManager.MemoryManager.MapInner` | kernel/src/subsystem/memory.rs:544-684 | The four-level walk in place does what the specification of map does, same tables, counter and answer; each entry on the way gains exactly the flags asked for, the page may be used exactly as asked, and no other slot changes. |
| `PageManager.MemoryManager.UnmapInner` | kernel/src/subsystem/memory.rs:844-1012 | The walk in place does what the specification of unmap does. |
| `PageManager.MemoryManager.TranslateAddress` | kernel/src/subsystem/memory.rs:371-499 | The walk returns the translation, of 4 KiB, 2 MiB and 1 GiB pages alike, as `PageTranslates` has it, and none for non-canonical or unmapped addresses. |
| `PageManager.MemoryManager.Scan` | kernel/src/subsystem/memory.rs:686-842 | The nested scan returns the first free non-zero page of its range, or that all are mapped, then with nothing changed; it gives up if and only if fewer frames are left than tables were missing on the way to that page; it leaves the tables exactly as a walk to that page that asks for no flags. |
| `PageManager.MemoryManager.MapAnyInner` | kernel/src/subsystem/memory.rs:686-842 | Fails if and only if every page in range is mapped, then with nothing changed, or fewer frames are left than tables were missing on the way to the first free page in scan order; else the state is the one after mapping the frame at that page: that page in the spaces that share its table, with the rights asked for, no other translation and no other slot. |
| `PageManager.MemoryManager.MapTemporary` | kernel/src/subsystem/memory.rs:67-82 | Fails on the same condition; else the callback is given the first free page, mapped to the frame with the rights asked for, its result is returned, and every translation of every address space is as before. |
| `PageRuns.SearchExact` | kernel/src/subsystem/memory.rs:84-233 | The search ends with a run of the asked length if and only if the range has a stretch of that many free pages that is not followed by a huge page; what it ends with is free and in range, and lies at the end of the range if it is too short. |
| `PageRuns.SearchMisses` | kernel/src/subsystem/memory.rs:134-176 | When the search ends with too little, every long enough stretch of free pages ends with the last page of a level-1 table and has a huge page right behind it: the run is dropped there though it is complete. |
| `PageRuns.CountedSearch` | kernel/src/subsystem/memory.rs:84-233 | However far the scan came, the frames it took are as many as tables were missing, before the call, up to where the search over pages ends, or all that were left if they were fewer. |
| `PageRuns.FurnishedNeeds` | kernel/src/subsystem/memory.rs:84-233 | Where every page has its tables the search needs none. |
| `PageManager.MemoryManager.ScanRun` | kernel/src/subsystem/memory.rs:84-233 | The nested scan in place does what the search over pages does: same run, same place to stop; it takes exactly one frame for each table that was missing on the way of the pages searched, gives up if and only if fewer are left, and adds tables only in its range. |
| `PageManager.MemoryManager.FindRun` | kernel/src/subsystem/memory.rs:84-233 | The same for the whole range of top slots. |
| `PageRuns.OverwriteLemma` | kernel/src/subsystem/memory.rs:263-306 | Writing a page whose tables are there changes exactly that page, mapped before or not, in the spaces that share it, and adds no table. |
| `PageRunGrants.OverwriteSlot` | kernel/src/subsystem/memory.rs:263-306 | It makes the leaf as asked for, adds the flags asked for to the entries on the way, and changes no other slot of any table. |
| `PageRunGrants.RunGrantsStep` | kernel/src/subsystem/memory.rs:263-349 | One more page of a run: after k pages, their leaves are as asked for, the entries on their ways have gained the flags asked for, and every other slot is as it was. |
| `PageRuns.RunExtent` | kernel/src/subsystem/memory.rs:235-349 | The writing keeps to the run found if and only if the run is long enough, or no page is left after it, or the page behind the range has no tables; otherwise it goes on behind the range. |
| `PageManager.MemoryManager.MapPages` | kernel/src/subsystem/memory.rs:249-349 | Writes page after page from the start of the run, whatever is mapped there, up to the count, the last page, or the first page without tables; the leaves have exactly the flags asked for, the entries on their ways gain those asked for, and no other slot changes. |
| `PageManager.MemoryManager.NextIndices` | kernel/src/subsystem/memory.rs:327-346 | The carry chain over four indices adds one to the page number, and gives up exactly at the last page. |
| `PageManager.MemoryManager.MapAnyContiguous` | kernel/src/subsystem/memory.rs:84-352 | For every range: panics with no page written if and only if the search is left without a run, or fewer frames are left than tables are missing up to where it ends, and takes exactly that many; else exactly the k pages from the start of the run on are mapped in order to the first k frames, in the spaces that share their tables, with the flags asked for, and no other translation of any space and no other flag changes, where k is what `RunExtent` says; a range is returned if and only if all pages asked for, at least two, are written and the last page there is is not among them. |
| `PageClash.MapsPastRange` | kernel/src/subsystem/memory.rs:235-349 | In every state where only the last page below slot 256 is free and the page after it has its tables, a request for two pages below slot 256 writes that page. |
| `PageClash.OverwritesMapping` | kernel/src/subsystem/memory.rs:235-349 | Concrete tables where that page was mapped to another frame: the mapping is lost. |
| `PageManager.MemoryManager.CreateAddressSpace` | kernel/src/kernel.rs:593-608 | Writes the root table of the new space: lower half empty, upper half equal to that of the kernel table entry by entry; no other table changes. |
| `TxRing.AdvanceIsRemainder` | kernel/src/driver/hv/hyperv/ring_buffer.rs:199-209 | The remainder the code computes is the offset gone around once at most. |
| `TxRing.PutAppends` | kernel/src/driver/hv/hyperv/ring_buffer.rs:316-341 | A write that leaves a byte free appends exactly its bytes to the unread content, across the wrap, and overwrites no unread byte. |
| `TxRing.PutIsAround` | kernel/src/driver/hv/hyperv/ring_buffer.rs:316-341 | A write of up to the whole ring puts its bytes from the offset on, going around, and changes no other byte. |
| `TxRing.ContentIsAround` | kernel/src/driver/hv/hyperv/ring_buffer.rs:184-195 | The unread bytes are those from the read offset on, going around, as many as the offsets are apart modulo the ring. |
| `TxRing.PutPut` | kernel/src/driver/hv/hyperv/channel.rs:434-518 | Header, payload, padding and footer written one after the other are one write of their concatenation. |
| `TxRing.TakeFront` | kernel/src/driver/hv/hyperv/ring_buffer.rs:199-209 | Moving the read offset drops exactly that many bytes from the front. |
| `TxRing.ReadOn` | kernel/src/driver/hv/hyperv/ring_buffer.rs:199-209 | A reader that moves by any count leaves the unread length less that count, modulo the ring; moved past the write offset it finds old bytes unread again. |
| `TxRing.SpaceCheckExact` | kernel/src/driver/hv/hyperv/ring_buffer.rs:295-297 | The 32-bit space check passes if and only if at least one byte stays free; at 2^32 the truncation lets a too long packet pass. |
| `TxRing.ConsumedIsSent` | kernel/src/driver/hv/hyperv/channel.rs:381-422 | The length a reader steps over equals the length sent if and only if it fits the 16-bit field of 8-byte units. |
| `TxRing.PayloadIsSent` | kernel/src/driver/hv/hyperv/channel.rs:381-422 | Behind the header a reader finds the payload and its zero padding. |
| `TxRing.PacketOnWire` | kernel/src/driver/hv/hyperv/channel.rs:453-518 | Every byte of a packet on the wire: the header with its 16-bit length in units of 8 bytes at offset 4, the payload, zeros up to a multiple of 8, and a footer of four zero bytes and then the write offset before the packet, in little-endian order. |
| `TxRing.StepIsFifo` | kernel/src/driver/hv/hyperv/channel.rs:434-518 | Every send appends one packet to the queue and every read removes the first; offsets stay in range and 8-aligned, and are equal exactly when the queue is empty. |
| `TxRing.RunIsFifo` | kernel/src/driver/hv/hyperv/channel.rs:434-518 | The same over every run of sends and reads, so draining k packets lands on packet k+1. |
| `TxRing.RingBuffer.IsEmpty` | kernel/src/driver/hv/hyperv/ring_buffer.rs:175-181 | True exactly when there is no unread byte. |
| `TxRing.RingBuffer.GetAvailableWriteSpace` | kernel/src/driver/hv/hyperv/ring_buffer.rs:184-195 | The size of the ring less the number of unread bytes. |
| `TxRing.RingBuffer.Send` | kernel/src/driver/hv/hyperv/ring_buffer.rs:316-341 | Copies in one or two pieces; the ring holds the bytes from the offset on, going around. |
| `TxRing.RingBuffer.SendRaw` | kernel/src/driver/hv/hyperv/channel.rs:434-518 | Sends if and only if the packet leaves a byte free; then the bytes from the old write offset on, going around, are the packet as `PacketOnWire` has it, the unread content grows by exactly it and the write offset moves by its length, else nothing changes; a length of 2^32 or more whose lower 32 bits pass the check overruns the ring. |
| `TxRing.RingBuffer.AdvanceReadIndex` | kernel/src/driver/hv/hyperv/ring_buffer.rs:199-209 | For every count, whatever the write offset: the new offset is the 32-bit sum modulo the ring; offsets stay aligned if and only if the count is a multiple of 8; unless the sum passes 32 bits, the unread bytes are those of `ReadOn`. |
| `FatChain.WalkIsChain` | fs/src/fat32/fat.rs:89-110 | A walk that ends has collected a chain: every entry links to the next and the last is an end mark. |
| `FatChain.ChainUnique` | fs/src/fat32/fat.rs:89-110 | A cluster is the head of at most one chain. |
| `FatChain.ChainDistinct` | fs/src/fat32/fat.rs:89-110 | A chain that ends meets no cluster twice. |
| `FatChain.WalkEnds` | fs/src/fat32/fat.rs:89-110 | The walk ends if and only if the cluster heads a chain, and then within as many steps as the table is long. |
| `FatChain.EndMarks` | fs/src/fat32/fat.rs:100-103 | A walk stops at the first entry of 0x0FFFFFF8 or more, and a chain that is allocated ends with 0xFFFFFFFF. |
| `FatChain.FreeMarks` | fs/src/fat32/fat.rs:376-383 | A cluster is free if and only if its entry is zero, and a cleared one is. |
| `FatChain.AllocateLemma` | fs/src/fat32/fat.rs:306-344 | The clusters taken were free and distinct, become one chain that ends, every chain in use stays as it was, and freeing them gives the old table back. |
| `FatChain.AllocatesOneMore` | fs/src/fat32/fat.rs:376-383 | The number allocated is the number asked for if and only if no other cluster was free; otherwise it is one more. |
| `FatChain.ExtendLemma` | fs/src/fat32/file.rs:204-218 | Linking the last cluster of a chain to newly allocated ones makes one chain of both, which ends and meets no cluster twice, and keeps every chain that does not share that cluster. |
| `FatData.WrittenCluster` | fs/src/fat32/fat.rs:271-292 | Writing a cluster changes its bytes to those written, and the bytes of no other cluster. |
| `FatData.WrittenSector` | fs/src/fat32/fat.rs:271-292 | Told by sectors of the raw disk: sector dataStart + (c - 2) * sectorsPerCluster + i holds the i-th 512 bytes written, every other sector what it held. |
| `FatData.FilePiece` | fs/src/fat32/file.rs:22-99 | A piece inside the k-th cluster of a chain is the piece of the file at k cluster sizes plus the place in the cluster. |
| `FatData.FileByte` | fs/src/fat32/fat.rs:386-389 | Byte p of a file is byte p % 512 of the right sector of the raw disk, by the cluster number at p / clusterSize in the chain, for every geometry. |
| `FatData.RawClusterBytes` | fs/src/fat32/fat.rs:240-268 | Byte o of cluster c is byte o % 512 of sector dataStart + (c - 2) * sectorsPerCluster + o / 512. |
| `FatData.PieceSplice` | fs/src/fat32/file.rs:101-180 | Overwriting a piece of the k-th cluster replaces exactly that piece of the file. |
| `FatData.AddedHole` | fs/src/fat32/file.rs:219-233 | The first new cluster is given one byte less than it has room or data for: the byte after its share stays zero. |
| `FatData.AddedPlaces` | fs/src/fat32/file.rs:219-233 | Every byte of the new clusters: clusterSize - 1 bytes of the data in each, in order; the last byte of each cluster is zero, the last byte of the data is never written, and behind the data stands what the cluster before holds. |
| `Fat.ReadsBackExactly` | fs/src/fat32/file.rs:101-236 | A write of n bytes at an offset is read back, whatever the bytes, if and only if it fits the clusters that the file has. |
| `Fat.FileSystem.GetClustersForFile` | fs/src/fat32/fat.rs:89-110 | Collects the chain from the given cluster; the loop ends for exactly the clusters that head one. |
| `Fat.FileSystem.FindFreeClusters` | fs/src/fat32/fat.rs:376-383 | The first free clusters in table order, one more than asked for if there is one. |
| `Fat.FileSystem.AllocateAndLinkClusters` | fs/src/fat32/fat.rs:306-336 | Fails if and only if fewer clusters are free than asked for, with the table unchanged; else links at least that many. |
| `Fat.FileSystem.MarkClustersAsFree` | fs/src/fat32/fat.rs:339-344 | Clears the entries of the chain and no other entry. |
| `Fat.FileSystem.AllocateThenFree` | fs/src/fat32/fat.rs:306-344 | Freeing what was just allocated gives the old table back exactly. |
| `Fat.FileSystem.ReadClusterTo` | fs/src/fat32/fat.rs:240-268 | Fills the buffer with the bytes of the cluster, sector by sector: byte o from byte o % 512 of sector dataStart + (c - 2) * sectorsPerCluster + o / 512. |
| `Fat.FileSystem.WriteCluster` | fs/src/fat32/fat.rs:271-292 | Each sector of the cluster, by its number on the raw disk, holds its 512 bytes of the data, and every other sector what it held. |
| `Fat.FileSystem.Read` | fs/src/fat32/file.rs:22-99 | Fails if and only if the range goes past the file size, with the buffer unchanged; else the buffer is exactly that slice of the concatenated clusters, each byte from its sector of the raw disk, and the final assertion holds. |
| `Fat.FileSystem.WriteOver` | fs/src/fat32/file.rs:117-180 | Replaces in the file as much of the data as its clusters hold, and writes no sector outside them. |
| `Fat.FileSystem.SaveListing` | fs/src/fat32/fat.rs:593-677 | The clusters of the directory hold exactly the new entries, and no other sector changes. |
| `Fat.FileSystem.Grow` | fs/src/fat32/file.rs:204-236 | Fails with nothing changed if and only if too few clusters are free, or none; else hangs the new clusters behind the chain, with the data in them as `AddedPlaces` has it, and keeps every other chain. |
| `Fat.FileSystem.Write` | fs/src/fat32/file.rs:101-236 | For every offset, size and data: panics if and only if the offset lies past the file size or not before the end of its clusters, or a cluster is needed and none is free; what fits the clusters replaces exactly that range of the bytes that `Read` returns; the rest goes into new clusters as `Grow` has it; if the file becomes longer the directory holds its new entries; no sector changes outside the chain of the file and, only if it becomes longer, that of its directory. |
| `Fat.FileSystem.WriteThenRead` | fs/src/fat32/file.rs:22-236 | Reading a range just written returns the data if it fits the clusters that the file had; if not, and the read succeeds, a byte of it reads as zero whatever was written; with the directory rewritten in between. |
| `SchedulerModel.StatusSetKeeps` | kernel/src/subsystem/process.rs:72-87 | From an invariant state a status change keeps the invariant (queues hold exactly the running threads other than the current, each once, in the queue of its priority) if and only if it does not wake the current thread. |
| `SchedulerModel.SpawnedKeeps` | kernel/src/kernel.rs:565-590 | A new thread is queued once, in the queue of its priority. |
| `SchedulerModel.DispatchElectsForemost` | kernel/src/subsystem/scheduler.rs:351-369 | The thread elected is running, and no running thread has a higher priority, priorities above the highest level counting as that level. |
| `SchedulerModel.RunElectsForemost` | kernel/src/subsystem/scheduler.rs:351-369 | The same for every dispatch of every run of spawns, status changes and dispatches that never wakes the current thread. |
| `SchedulerModel.DispatchTakesHead` | kernel/src/subsystem/scheduler.rs:351-369 | A dispatch elects the first in line of the top level, which holds the running threads of highest priority, puts the thread that ran at the end of its own line, and keeps every other line. |
| `SchedulerModel.DispatchIdle` | kernel/src/subsystem/scheduler.rs:351-369 | A dispatch keeps the invariant, and elects no thread if and only if none is running. |
| `SchedulerModel.RoundRobin` | kernel/src/subsystem/scheduler.rs:351-369 | The top line holds exactly the running threads than which none has higher priority; k dispatches without status changes elect its first k in order, and rotate it by k. |
| `SchedulerModel.EachRunsOnce` | kernel/src/subsystem/scheduler.rs:351-369 | In any window of m dispatches, m being the number of running threads of the highest priority among the running, each of them runs exactly once and no other thread runs; the line is then as before. |
| `SchedulerModel.WokenTakesTurn` | kernel/src/subsystem/process.rs:72-87 | A woken thread goes behind those that wait at its priority; if none running has a higher one, those are elected first, in their order, and then it. |
| `SchedulerModel.RunKeeps` | kernel/src/subsystem/process.rs:72-87 | Over every run of spawns, status changes and dispatches, the invariant holds throughout if and only if no step wakes the thread that is current then. |
| `SchedulerModel.WokenCurrentDoubles` | kernel/src/subsystem/scheduler.rs:358-362 | A thread woken while current is queued twice by the next dispatch, whatever the state. |
| `SchedulerModel.WokenCurrentCounterexample` | kernel/src/subsystem/scheduler.rs:358-362 | From boot, a thread that waits and is woken before it yields ends up both current and queued. |
| `Scheduler.Position` | kernel/src/subsystem/scheduler.rs:330-336 | The first occurrence of a thread in a queue, and what is left when it is removed. |
| `Scheduler.Scheduler.Schedule` | kernel/src/subsystem/scheduler.rs:280-300 | Queues a running thread at the end of the queue of its priority unless it is there, and sets its flag; waiting and stopped threads are left alone. |
| `Scheduler.Scheduler.Unschedule` | kernel/src/subsystem/scheduler.rs:322-337 | Clears the flag and removes the thread from its queue if it is there. |
| `Scheduler.Scheduler.SetStatus` | kernel/src/subsystem/process.rs:72-87 | Schedules, unschedules or does neither by old and new status; keeps the invariant if and only if it does not wake the current thread. |
| `Scheduler.Scheduler.Spawn` | kernel/src/kernel.rs:565-590 | A new thread is running, flagged, of the priority given, and queued once; keeps the invariant. |
| `Scheduler.Scheduler.ScheduleNextThread` | kernel/src/subsystem/scheduler.rs:351-369 | Puts the previous thread back by its flag and elects the head of the highest non-empty queue: from an invariant state a running thread than which none running has higher priority, or none if none is running; keeps the invariant. |
| `Scheduler.Scheduler.Run` | kernel/src/subsystem/scheduler.rs:302-308 | The interrupt handler panics if and only if there was no current thread or none is running: the registers to save or to restore are missing. |
| `Gate.OpenedGate` | kernel/src/subsystem/scheduler.rs:192-203 | In every order of the steps of one waiter and one opener: unless the wake-up came between the waiter's test and its entry in the list, the waiter gets through within two more steps; if it came then, no further step lets it through. |
| `Gate.LostWakeUp` | kernel/src/subsystem/scheduler.rs:143-158 | The order of steps in which the documented guarantee of the gate fails. |
| `TtlCacheModel.StepAgrees` | kernel/src/driver/net/mod.rs:318-402 | Every operation keeps at most one occupied slot per key, each as the last insertion and access of its key left it. |
| `TtlCacheModel.RunAgrees` | kernel/src/driver/net/mod.rs:318-402 | The same over every run. |
| `TtlCacheModel.HitIsLatest` | kernel/src/driver/net/mod.rs:318-339 | A lookup hits if and only if a live entry is present, and returns the value of the last insertion of the key, whose expiry is ahead. |
| `TtlCacheModel.VictimIsLeast` | kernel/src/driver/net/mod.rs:376-402 | An entry is thrown out only when all slots are live, and it is the one least recently inserted or found. |
| `TtlCacheModel.StepKeeps` | kernel/src/driver/net/mod.rs:347-402 | A live entry outlives an operation on other keys if and only if the operation does not throw it out. |
| `TtlCacheModel.RunKeeps` | kernel/src/driver/net/mod.rs:318-416 | Over every run with a non-decreasing clock that does not insert the key again and ends before its entry expires, a final lookup finds the inserted value if and only if no insertion threw it out. |
| `TtlCacheModel.InsertIsFound` | kernel/src/driver/net/mod.rs:347-402 | A value inserted at `now` is found at every time before both now + ttl and 2^64 - 1, and at no other. |
| `TtlCacheModel.CountIsKeys` | kernel/src/driver/net/mod.rs:419-430 | The number of live slots is the number of different live keys. |
| `TtlCache.Cache.constructor` | kernel/src/driver/net/mod.rs:309-315 | An empty cache of the given capacity finds nothing. |
| `TtlCache.Cache.Lookup` | kernel/src/driver/net/mod.rs:318-339 | Hits exactly on live entries, with the last inserted value; frees an expired entry; records the access. |
| `TtlCache.Cache.InsertWithTtl` | kernel/src/driver/net/mod.rs:347-402 | Writes the slot of the key, else the first free or expired one, else the least recently used; the value is found at every time before both now + ttl and 2^64 - 1, and at no other. |
| `TtlCache.Cache.Insert` | kernel/src/driver/net/mod.rs:342-344 | Inserts with the default time to live. |
| `TtlCache.Cache.PurgeExpired` | kernel/src/driver/net/mod.rs:405-416 | Afterwards every occupied slot is live, and no lookup changes. |
| `TtlCache.Cache.Len` | kernel/src/driver/net/mod.rs:419-430 | The number of keys a lookup would find. |
| `Dns.JoinSplit` | kernel/src/driver/net/proto/dns.rs:132-150 | Joining the parts of a name between its dots gives the name back. |
| `Dns.SplitJoin` | kernel/src/driver/net/proto/dns.rs:132-150 | Splitting the join of labels without dots gives those labels back. |
| `Dns.SplitDotFree` | kernel/src/driver/net/proto/dns.rs:132-150 | No part of a split name holds a dot, so the split is the one list of labels that joins to the name. |
| `Dns.WireRead` | kernel/src/driver/net/proto/dns.rs:220-271 | What is read from an encoded name, at any offset: the labels up to the first empty one, and the offset just past its zero byte. |
| `Dns.RoundTrip` | kernel/src/driver/net/proto/dns.rs:132-150 | A name encoded anywhere in a message is read back, with the offset just past it, if and only if none of its labels is empty. |
| `Dns.QuestionBytes` | kernel/src/driver/net/proto/dns.rs:132-150 | The question for the address of `a.bc` byte by byte, and the codes of the other record types. |
| `Dns.CompressedRead` | kernel/src/driver/net/proto/dns.rs:220-271 | A name in any number of pieces, each labels with a pointer to the next, is read as one name, with the offset just past its first piece, if and only if it has at most five pointers; section 4.1.4 of RFC 1035 sets no limit. |
| `Dns.CycleRefused` | kernel/src/driver/net/proto/dns.rs:220-271 | Labels and pointers that lead around in a circle, however long, are refused. |
| `Dns.RecordRoundTrip` | kernel/src/driver/net/proto/dns.rs:168-211 | A record laid out as section 4.1.3 of RFC 1035 has it is read back, with the offset just past it, wherever its name leads. |
| `Dns.RecordExact` | kernel/src/driver/net/proto/dns.rs:168-211 | A record is read, with the offset past it, if and only if it stands there behind its name, of a known type, of class 1 and with all its data; all else is refused. |
| `Dns.ToBytes` | kernel/src/driver/net/proto/dns.rs:132-150 | Fails if and only if a label has 64 bytes or more; else the name on the wire, then type and class. |
| `Dns.ParseName` | kernel/src/driver/net/proto/dns.rs:220-271 | The loop terminates on every message by jumps left and bytes left, and returns what the specification of a name reads. |
| `Sqrt.Sqrt` | common/src/statistics.rs:34-45 | For every 64-bit n below the maximum: r*r <= n < (r+1)*(r+1), and no sum overflows; fails exactly at the maximum, where the first sum overflows. |
| `Sqrt.RootUnique` | common/src/statistics.rs:30-33 | There is one such r. |
| `Sqrt.StepAbove` | common/src/statistics.rs:40-43 | A Newton step from any positive guess does not fall below the root. |
| `Clock.MultExact` | kernel/src/subsystem/clock/system_clock.rs:367-367 | Nothing overflows in computing the multiplier, for every non-zero frequency, and it is within half a unit of the exact one. |
| `Clock.Monotone` | kernel/src/subsystem/clock/system_clock.rs:402-404 | Later counts give later times as long as the time fits 64 bits, and the product fits 128 bits. |
| `Clock.Accurate` | kernel/src/subsystem/clock/system_clock.rs:402-404 | The time differs from t*10^9/f by less than t/2^33 + 1, for every t whose time fits 64 bits. |

## Left out

- Port I/O, model-specific registers, CR3 writes, TLB flushes and context-switch stubs: hardware effects outside the modelled state.
- Programming the local APIC when a timer is added: registration is modelled as `insert_timer`.
- PageManager.MemoryManager.MapAnyContiguous: where a page behind the run has no tables, the program writes through whatever address the entry holds; the model ends there as `Stray`.
- PageManager.MemoryManager.MapAnyInner: writes the leaf and passes the permissions on by the same walk as `map`, not in the order of the source; the tables that result are the same.
- TxRing.RingBuffer.SendRaw: the bytes that an overrun writes past the ring are not modelled. An absent payload is an empty one.
- Reading the receive ring across its end: only the length arithmetic of `read` is modelled.
- Fat.FileSystem.GetClustersForFile: requires a chain that ends, since the source loops forever otherwise; `FatChain.WalkEnds` says when.
- Fat.FileSystem.Write: requires that the free clusters lie on the disk and that the rewritten entry fits the clusters of its directory, whose new contents are a parameter; sizes are not cut to 32 bits. `shrink`, directories that grow and saving the table are not modelled.
- Disk errors, and the rounding of `floorf` on cluster numbers: sectors always read and write, and division is exact.
- Thread registers and the page-table switch of `run`: `Scheduler.Run` says only when the registers are there.
- Gate.OpenedGate: one waiter and one opener; several waiters would only repeat the argument.
- Dns.RoundTrip: takes the labels of the name to be well-formed UTF-8 one by one; for text split at dots they are.
- Clock.Accurate: for times that fit 64 bits; the code cuts longer ones off.
- ACPI, PCI, virtual machines, terminal and logging, and the network stack other than the cache and DNS messages.
