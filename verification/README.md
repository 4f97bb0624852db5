# A verified model of the data server's core

This project models, in Dafny 4.11, the parts of the repository with the most state and the most case distinctions, and
proves what they promise. `dafny verify dfyconfig.toml` checks everything.

**The buffer pool** (`dataserver/bpool`) keeps blocks of a database file in memory. It is modelled in three layers:

- `VirtualMemory.VmUnix` is the arena allocator: sixteen blocks to an arena, a mask per arena, a list of mixed arenas, a
  list of released arenas, an index by address, and a compaction that asks a callback about every block it wants to move.
- `BlockLists.BlockList` are the doubly linked lists that run through the block heads; `Threads.ThreadTable` is the table
  of the threads that hold blocks.
- `PageBpools.PageBpool` is the pool itself, an object whose methods update the page table, the block heads, the four
  lists, the thread table and the allocator in place. Each method is proved equal to a function on values (`PoolModel`),
  and the theorems are about that state machine: `PoolInvariant` states the invariant, `PoolRuns` and `PoolTheorems` say
  what holds after any sequence of calls of any threads, and `PoolAnswers` what each call gives and takes. Every public call holds one mutex, so it is one step;
  `async_release` takes the mutex twice and is two steps.

**The query engine** (`dataserver/maketable`) picks a scan of the table or a seek with the clustered index, when the query
is compiled. `Queries` holds the conditions and the term lists both plans use, `IndexTrees` the search in the index pages,
`QueryScans` the loops over data pages, and `QueryPlans` and `QueryResults` the two plans, sorting and `VALUES`. The main
results say which rows each plan returns, and `QueryProbes` and `QueryRights` say exactly when the seek returns what the
scan would.

**Five smaller algorithms**: weighted quick union with path halving (`UnionFinds`), the interval map (`IntervalMaps`), the
interval set of cells (`IntervalCells`), the indexed heap (`PriorityQueues`), the sequence lock as interleaved atomic steps
(`SequenceLocks`), and with them the line rasterizer (`BresenhamLines`).

## Where the code differs from its documentation

- A seek with several AND-ed conditions on the first key column returns the union of what they find, not the rows that
  satisfy all of them: `k > 1 AND k < 5` also returns `k = 7` (`Queries.SeekWrong`, `Queries.SeekUnion`). For which queries
  it is right can be found out before the query runs, as a condition says the same about all values between its literals:
  `QueryProbes.SeekRight` gives the exact condition for queries without lambdas, a check of finitely many test rows
  (`QueryProbes.SafeToSeek`). For any query whose rest accepts some row at every key value it is that the AND-ed key
  conditions agree at their literals and next to them (`QueryProbes.SeekRightOpen`), which is enough for every query.
- `lock_page_fixed` accepts every page id of a block that the file has, also those behind the last page of a partial last
  block, but `unlock_thread` visits only the pages of the file. A lock on a page behind the end therefore outlives the
  thread's slot: `PoolPageIds.GivenBackIff` shows that such a lock is given back exactly if the file has the page, and
  `PoolPageIds.LeftLocked` is an example. Everything else holds in spite of such locks.
- `TOP 0` without ORDER BY returns a row if there is one, as the limit is compared after a row was added:
  `QueryResults.ScanOrSeek` and `QueryResults.Values` say that TOP is kept exactly if it is not 0 or no row is wanted, and
  `QueryResults.TopZero` is an example.
- `interval_cell::size` computes the length of a run in 32 bits, so the set of all 2^32 cells has size 0
  (`IntervalCells.FullSet`); `IntervalCells.IntervalCell.Size` is right exactly for all other sets.
- For a key of several columns `first_page` goes back over the data pages that end with the value, but stops at a page
  without rows. It finds the right page for a value exactly if no page without rows that follows a row with the value lies
  before the page that the index pages lead to (`IndexTrees.FirstPageIff`), and for every value exactly if the index pages
  lead the value of the last row before each page without rows there or to an earlier page (`IndexTrees.FirstPageAlways`);
  both can be checked on the table. `IndexTrees.HoleHidesRow` is a table in which a row is missed. The row missed is one
  with the value searched for: scans, `find_page`, the seeks that begin at the start of the table, and those of strict
  comparisons (`IndexTrees.StartsEarly`) find all their rows on every table. `QueryRights.GapsIff` says when the others do.
- Scans pass over rows that are not in use (ghosted, or only forwarding), and so do the seeks that begin at the start of the
  table; `lower_bound`, `scan_next` and `find_with_index` on index pages only assert that there are none. A seek for
  `k > 1` therefore returns a ghosted row `k = 7` (`QueryRights.UnusedRow`), while one for `k < 9` does not. Such rows make a
  seek wrong exactly if one of them is accepted by the rest of the query and by a key condition whose loop does not pass over
  it (`QueryRights.UnusedIff`).
- A reader of the sequence lock is safe only while fewer than 2^32 - 1 writer sections pass between `try_lock` and
  `commit`; `SequenceLocks.ReaderFooled` is a run with as many, in which `commit` succeeds although writers were inside.
- The assertion in `block_list.cpp` line 68 that the block asked about is not block 0 does not hold in `defragment`, which
  asks about the zero block too; the search then simply fails.

## Model

| member | source | states |
|---|---|---|
| `PoolTheorems.LockedPageStays` | dataserver/bpool/page_bpool.cpp:336-395 | the address that lock_page_fixed returns shows the page of the file, and goes on showing it through every run of all threads: for ever if the page was asked to be fixed, else until the caller gives it up; a page behind the end of the file keeps its address and bytes too |
| `PoolTheorems.RunHolds` | dataserver/bpool/page_bpool.cpp:161-245 | a page that a thread holds stays held, in the same pool block, at the same address and with the same bytes, over every run in which this thread neither unlocks it nor calls unlock_thread |
| `PoolTheorems.RunFixed` | dataserver/bpool/page_bpool.cpp:182-195 | a fixed block is never moved, unloaded, overwritten or unfixed, by any run |
| `PoolTheorems.RunZero` | dataserver/bpool/page_bpool.cpp:101-110 | the zero block keeps its address and its bytes over every run |
| `PoolTheorems.RunInv` | dataserver/bpool/page_bpool.cpp:123-574 | every state reached from a state that meets the invariant meets it, whatever page ids are asked for |
| `PoolTheorems.StartOk` | dataserver/bpool/page_bpool.cpp:79-110 | the state the constructor leaves meets the invariant, whatever bytes and address the first block has |
| `PoolTheorems.UsedBlocks` | dataserver/bpool/page_bpool.cpp:542-574 | no block leaks: the blocks taken from the allocator are the zero block and those on the four lists, and never more than the file has blocks |
| `PoolTheorems.NothingLeaks` | dataserver/bpool/page_bpool.cpp:451-461 | without threads in the table free_unlocked with decommit gives back every block but the zero block, the fixed ones and those still locked, and a block is still locked exactly if a page of it behind the end of the file is |
| `PoolTheorems.OverLimit` | dataserver/bpool/page_bpool.cpp:247-289 | at or above the memory limit a fresh block is taken from the allocator only if both the free list and the unlock list are empty |
| `PoolRuns.LockOk` | dataserver/bpool/page_bpool.cpp:336-395 | lock_page_fixed fails exactly if the file does not have the block of the page or the thread table is full, never for lack of memory; otherwise the caller gets the page, fixed or locked by it, and every other locked or fixed block is as it was |
| `PoolRuns.CanAllocTrue` | dataserver/bpool/page_bpool.cpp:247-270 | while a file block is not loaded there is memory for it |
| `PoolRuns.StepStays` | dataserver/bpool/page_bpool.cpp:161-245 | pin safety of one step: no call of any thread changes the pool block, the address or the bytes of a locked or fixed block |
| `PoolRuns.StepKeeps` | dataserver/bpool/page_bpool.cpp:542-674 | no call but an unlock takes a lock off a locked or fixed block or moves it to another list |
| `PoolRuns.StepHolds` | dataserver/bpool/page_bpool.cpp:397-449 | the lock of a thread on a page survives every call that is not its own unlock of this page or its own unlock_thread |
| `PoolRuns.StepUnlocks` | dataserver/bpool/page_bpool.cpp:397-540 | an unlock moves no block and takes locks of the slot of its own thread only |
| `PoolRuns.StepInv` | dataserver/bpool/page_bpool.cpp:336-674 | every call keeps the invariant |
| `PoolRuns.DefragmentInvisible` | dataserver/bpool/page_bpool.cpp:632-674 | defragment, for any questions the allocator asks: every loaded file block has the same bytes and the same locks after it as before, the unlock list holds the same file blocks, and only unlocked blocks are elsewhere |
| `PoolAnswers.LockAnswer` | dataserver/bpool/page_bpool.cpp:247-289 | lock_page_fixed unloads a file block only if it loads one, at or above the memory limit and with no free block; then exactly the last max(2, (used - min) / 64K) of the unlock list, or all of it; the block is read into the first free one, else into the first evicted one, else into a fresh one |
| `PoolAnswers.CanAllocAnswer` | dataserver/bpool/page_bpool.cpp:247-270 | can_alloc_block evicts exactly that many of the last unlocked blocks, none below the limit or while a block is free, and says yes if a block is free then |
| `PoolAnswers.FreeUnlockedAnswer` | dataserver/bpool/page_bpool.cpp:451-461 | free_unlocked unloads exactly the unlocked blocks; they become free, or with decommit they and all free blocks go back to the allocator |
| `PoolAnswers.AsyncChooseAnswer` | dataserver/bpool/page_bpool.cpp:607-620 | the first half of async_release chooses half of the blocks that are free then, one at least if there is one |
| `PoolAnswers.AsyncReleaseAnswer` | dataserver/bpool/page_bpool.cpp:621-628 | the second half gives back that many of the last free blocks, or all if there are fewer, and changes nothing else |
| `PoolAnswers.AsyncAnswer` | dataserver/bpool/page_bpool.cpp:607-628 | both halves with no call in between give back half of the free blocks, one at least if there is one |
| `PoolAnswers.DefragmentAnswer` | dataserver/bpool/page_bpool.cpp:632-674 | defragment gives back all free blocks, those it has evicted included, unloads nothing else, and changes no list but in the places of its blocks |
| `PoolAnswers.UnlockedFirst` | dataserver/bpool/page_bpool.cpp:213-245 | a block that unlock_page unlocks goes to the head of the unlock list, so that those unlocked longest are evicted first |
| `PoolAnswers.ThreadFirst` | dataserver/bpool/page_bpool.cpp:511-540 | the blocks that unlock_thread unlocks go before those unlocked already, whose order stays |
| `PoolAnswers.LockedFirst` | dataserver/bpool/page_bpool.cpp:161-211 | a lock of a block that is not fixed yet puts it at the head of the lock list, or of the fixed list if it fixes it |
| `PoolAnswers.MovedFirst` | dataserver/bpool/page_bpool.cpp:651-668 | the blocks that a compaction has moved go before all other unlocked blocks, so that they are evicted last |
| `PoolSafety.LockLoadedKeeps` | dataserver/bpool/page_bpool.cpp:161-211 | locking a page of a loaded block disturbs no locked or fixed block |
| `PoolSafety.LockFreshKeeps` | dataserver/bpool/page_bpool.cpp:373-391 | loading a block disturbs no locked or fixed block |
| `PoolSafety.FreeUnlockKeeps` | dataserver/bpool/page_bpool.cpp:542-574 | eviction keeps the invariant and disturbs no locked or fixed block |
| `PoolMemory.MoveAllOk` | dataserver/bpool/page_bpool.cpp:644-671 | the accepted moves of a compaction, in order, keep the invariant; the bytes are where the allocator has put them, and the unlock list holds what was not moved and the new places of what was |
| `PoolMemory.MoveUnlockedOk` | dataserver/bpool/page_bpool.cpp:647-655 | one accepted move keeps the invariant and what the page table shows |
| `PoolMemory.LockFreshOk` | dataserver/bpool/page_bpool.cpp:373-391 | a block that is not loaded is read into the first free block, else into a fresh one; only this block and this entry change |
| `PoolMemory.NoOldLocks` | dataserver/bpool/page_bpool.cpp:136-142 | lock_block_init does not clear the masks of pages behind the end of the file, and need not: a block that is put to use has none |
| `PoolMemory.FreeUnlockOk` | dataserver/bpool/page_bpool.cpp:542-574 | free_unlock_blocks keeps the invariant and the masks and fixed flags of all blocks |
| `PoolMemory.ReleaseOk` | dataserver/bpool/alloc_unix.cpp:15-32 | giving free blocks back keeps the invariant, touches no other block and frees exactly as many blocks as the list has |
| `PoolMemory.RoomForOne` | dataserver/bpool/page_bpool.cpp:247-289 | while a file block is not loaded and no block is free, fewer blocks are in use than the file has |
| `PoolLocking.LockLoadedOk` | dataserver/bpool/page_bpool.cpp:161-211 | lock_block_head keeps the invariant, and changes exactly the entry and the head of its block: the page bit, the bit of the thread, and the fixed flag |
| `PoolUnlocking.UnlockHeadOk` | dataserver/bpool/page_bpool.cpp:213-245 | unlock_block_head keeps the invariant and takes exactly one bit of one slot |
| `PoolUnlocking.UnlockPageExact` | dataserver/bpool/page_bpool.cpp:397-449 | unlock_page takes at most the calling thread's lock on that page, changes no other block or page, and moves nothing |
| `PoolUnlocking.UnlockPageForgets` | dataserver/bpool/page_bpool.cpp:413-447 | after it the thread does not lock the page, its mask names the block only if it locks another page of it that the file has, and the result tells whether the block went from the lock list to the unlock list |
| `PoolUnlocking.UnlockThreadExact` | dataserver/bpool/page_bpool.cpp:511-540 | unlock_thread takes exactly the locks of the thread on the pages of the file in movable blocks, unlocks exactly the blocks on which these were the only locks, and returns their number |
| `PoolUnlocking.EmptySlotIsFree` | dataserver/bpool/thread_id.cpp:60-111 | a slot without a thread locks no page of the file in a movable block, so the next thread that gets it inherits no such lock |
| `PoolUnlocking.UnlockedIff` | dataserver/bpool/page_bpool.cpp:213-245 | a movable block is on the unlock list exactly if no thread locks a page of it, and else on the lock list |
| `PoolPageIds.GivenBackIff` | dataserver/bpool/page_bpool.cpp:336-540 | for every page id of a block of the file: after lock_page_fixed and unlock_thread by one thread the page of a movable block is still locked by the slot of this thread if and only if the page id is behind the end of the file |
| `PoolPageIds.LeftLocked` | dataserver/bpool/page_bpool.cpp:499-540 | a file of nine pages in which a thread locks page 15 and leaves, and the page stays locked |
| `PoolPageIds.ThreadGone` | dataserver/bpool/page_bpool.cpp:511-540 | if only pages of the file are locked, unlock_thread leaves no page of a movable block locked by the thread, and unlocks exactly the blocks that only this thread held |
| `PoolPageIds.EmptySlotHoldsNothing` | dataserver/bpool/thread_id.cpp:60-111 | if only pages of the file are locked, a slot without a thread has no lock on any page of a movable block |
| `PoolPageIds.StartRunInFile` | dataserver/bpool/page_bpool.cpp:336-395 | from the start, in every run in which all callers ask for pages of the file, or of blocks it does not have, the pool is in order and only pages of the file are locked |
| `PoolInvariant.LocalChange` | dataserver/bpool/page_bpool.cpp:123-245 | a change of one block that leaves this block in order keeps the invariant |
| `PageBpools.PageBpool.constructor` | dataserver/bpool/page_bpool.cpp:79-110 | the object shows the start state: file block 0 in pool block 0, which no list holds |
| `PageBpools.PageBpool.LockPageFixed` | dataserver/bpool/page_bpool.cpp:336-395 | in place: the new state and the result are those of the state machine, for the block the allocator gave |
| `PageBpools.PageBpool.PageIsLocked` | dataserver/bpool/page_bpool.cpp:291-313 | true exactly for the zero block and the blocks on the lock and fixed lists |
| `PageBpools.PageBpool.LockBlockHead` | dataserver/bpool/page_bpool.cpp:161-211 | in place: lock_block_head, with the lists it moves the block between |
| `PageBpools.PageBpool.LockBlockInit` | dataserver/bpool/page_bpool.cpp:123-159 | in place: lock_block_init |
| `PageBpools.PageBpool.CanAllocBlock` | dataserver/bpool/page_bpool.cpp:247-270 | in place: can_alloc_block with the eviction it may do, for which PoolAnswers.CanAllocAnswer gives the numbers |
| `PageBpools.PageBpool.AllocBlock` | dataserver/bpool/page_bpool.cpp:272-289 | in place: alloc_block; a fresh block overlaps no other block and is never block 0 |
| `PageBpools.PageBpool.FreeUnlockBlocks` | dataserver/bpool/page_bpool.cpp:542-574 | in place: the last blocks of the unlock list lose their file blocks and join the end of the free list; returns their number |
| `PageBpools.PageBpool.UnlockPageOf` | dataserver/bpool/page_bpool.cpp:397-449 | in place: unlock_page |
| `PageBpools.PageBpool.UnlockBlock` | dataserver/bpool/page_bpool.cpp:499-509 | in place: thread_unlock_block, page by page until the block is unlocked |
| `PageBpools.PageBpool.UnlockThreadOf` | dataserver/bpool/page_bpool.cpp:511-540 | in place: unlock_thread |
| `PageBpools.PageBpool.FreeAllUnlocked` | dataserver/bpool/page_bpool.cpp:451-461 | in place: free_unlocked; returns how many blocks were on the unlock list |
| `PageBpools.PageBpool.ReleaseList` | dataserver/bpool/alloc_unix.cpp:15-32 | in place: every block of a list goes back to the allocator, whose memory map loses exactly these blocks |
| `PageBpools.PageBpool.AsyncReleaseChoose` | dataserver/bpool/page_bpool.cpp:607-620 | in place: the first critical section of async_release |
| `PageBpools.PageBpool.AsyncReleaseSome` | dataserver/bpool/page_bpool.cpp:621-628 | in place: the second one, with whatever happened in between; PoolAnswers.AsyncReleaseAnswer says what goes back |
| `PageBpools.PageBpool.DefragmentNolock` | dataserver/bpool/page_bpool.cpp:632-674 | in place: the new state is that of the state machine for the questions the allocator asked, it shows what it showed, a block is moved exactly if it is asked about and on the unlock list, the result tells whether a block is elsewhere, and afterwards at most one mixed arena has unlocked blocks |
| `VirtualMemory.VmUnix.AllocBlock` | dataserver/bpool/vm_unix.cpp:249-304 | allocation fails exactly if every reserved block is in use; else exactly one block more is used, no other block moves, and the first one ever is block 0; no arena is mapped while one is mixed, and no new one while a released one is there |
| `VirtualMemory.VmUnix.AllocBlockWithoutCount` | dataserver/bpool/vm_unix.cpp:265-304 | the same without the counter: the lists, the masks and the address index stay right |
| `VirtualMemory.VmUnix.RemoveFromMixed` | dataserver/bpool/vm_unix.cpp:306-337 | takes exactly one arena out of the linked list |
| `VirtualMemory.VmUnix.Release` | dataserver/bpool/vm_unix.inl:20-30 | exactly one block less is used, and all other blocks keep their places and bytes; an address outside all arenas is refused |
| `VirtualMemory.VmUnix.ReleaseWithoutCount` | dataserver/bpool/vm_unix.cpp:339-378 | the same without the counter: an emptied arena is unmapped, a full one becomes mixed |
| `VirtualMemory.VmUnix.FindArena` | dataserver/bpool/vm_unix.cpp:99-149 | the arena whose megabyte holds the address, or none |
| `VirtualMemory.VmUnix.GetBlock` | dataserver/bpool/vm_unix.cpp:438-454 | the address of a used block, null for any other |
| `VirtualMemory.VmUnix.GetBlockId` | dataserver/bpool/vm_unix.cpp:419-436 | inverse of get_block on the used blocks |
| `VirtualMemory.VmUnix.FreeArena` | dataserver/bpool/vm_unix.cpp:181-195 | unmaps an arena: it leaves the address index, and no byte of another arena changes |
| `VirtualMemory.VmUnix.SortAdr` | dataserver/bpool/vm_unix.cpp:77-84 | the index stays the permutation of the live arenas sorted by address |
| `VirtualMemory.VmUnix.Defragment` | dataserver/bpool/vm_unix.cpp:472-547 | for any answers of the callback: the allocator is in order, the bytes are those after the accepted moves, no arena moved, the result tells whether a block was moved, blocks are offered from arenas with fewer blocks to those with more, and afterwards all mixed arenas but at most one have only blocks whose move was refused; if every question was accepted at most one mixed arena is left |
| `VirtualMemory.VmUnix.MoveArena` | dataserver/bpool/vm_unix.cpp:508-527 | the inner loop: it stops with nothing left to ask about or with the target full |
| `VirtualMemory.VmUnix.Round` | dataserver/bpool/vm_unix.cpp:501-543 | one pass of the outer loop comes nearer to its end and restores the lists it has broken |
| `Moves.MovedKeys` | dataserver/bpool/vm_unix.cpp:509-527 | compaction conserves the number of blocks: exactly the moved ones change their ids |
| `Moves.MovedData` | dataserver/bpool/vm_unix.cpp:516-525 | a moved block has at its new id the bytes it had at the start, so it is moved at most once |
| `Moves.KeptData` | dataserver/bpool/vm_unix.cpp:516-525 | a block that is not moved keeps its bytes |
| `Moves.RefusedNotFilled` | dataserver/bpool/vm_unix.cpp:509-527 | no block is moved to the place of one whose move was refused |
| `Arenas.UsedCount` | dataserver/bpool/vm_unix.cpp:197-217 | the sum of the mask sizes is the number of used blocks |
| `Arenas.CountFull` | dataserver/bpool/vm_unix.cpp:249-304 | all reserved blocks are used exactly if every arena is full |
| `Arenas.SetBlock` | dataserver/bpool/vm_unix.inl:82-94 | setting a mask bit uses exactly that block more |
| `Arenas.ClearBlock` | dataserver/bpool/vm_unix.inl:95-105 | clearing a mask bit frees exactly that block |
| `Arenas.FindFreeBlock` | dataserver/bpool/vm_unix.inl:126-137 | the lowest clear bit |
| `Arenas.FindSetBlock` | dataserver/bpool/vm_unix.inl:138-150 | the lowest set bit |
| `PoolObjectFacts.BlocksApart` | dataserver/bpool/vm_unix.cpp:438-454 | used blocks have memory, and no two of them overlap |
| `BlockLists.BlockList.Length` | dataserver/bpool/block_list.cpp:55-64 | the number of blocks |
| `BlockLists.BlockList.FindBlock` | dataserver/bpool/block_list.cpp:66-79 | whether the block is on the list |
| `BlockLists.BlockList.Insert` | dataserver/bpool/block_list.inl:9-32 | the block becomes the head; only links of its own blocks change |
| `BlockLists.BlockList.Promote` | dataserver/bpool/block_list.inl:34-70 | the block moves to the head, the others keep their order |
| `BlockLists.BlockList.Remove` | dataserver/bpool/block_list.cpp:81-133 | exactly this block goes, and its links are null |
| `BlockLists.BlockList.Truncate` | dataserver/bpool/block_list.cpp:135-184 | splits off the last min(n, length) blocks, in order, onto the end of the other list |
| `BlockLists.BlockList.Append` | dataserver/bpool/block_list.cpp:186-212 | concatenates and empties its source |
| `BlockLists.BlockList.PopHead` | dataserver/bpool/block_list.cpp:214-234 | exactly the first block goes, and its links are null |
| `BlockLists.Join` | dataserver/bpool/block_list.cpp:197-207 | joining tail and head gives the concatenation |
| `Threads.ThreadTable.Find` | dataserver/bpool/thread_id.cpp:44-58 | the first slot of the thread |
| `Threads.ThreadTable.Insert` | dataserver/bpool/thread_id.cpp:60-92 | the slot of the thread, which gets the first free one if it has none; none if all are taken |
| `Threads.ThreadTable.Erase` | dataserver/bpool/thread_id.cpp:94-111 | frees the slot of the thread, and counts |
| `Threads.InsertKeeps` | dataserver/bpool/thread_id.cpp:60-92 | a thread keeps its slot, no other slot changes, a new slot starts without blocks, and insertion fails exactly if 64 other threads are there |
| `Queries.ScanMeans` | dataserver/maketable/maketable_select.hpp:604-632 | a scan wants exactly the rows that some OR-ed and every AND-ed condition accepts |
| `Queries.SeekIsScan` | dataserver/maketable/maketable_select.hpp:1551-1586 | with use_index and at most one AND-ed key condition the seek wants exactly the rows of the scan |
| `Queries.SeekUnion` | dataserver/maketable/maketable_select.hpp:1557-1586 | with AND-ed key conditions the seek wants the rows that pass the rest of the query and any one of them |
| `Queries.SeekWrong` | dataserver/maketable/maketable_select.hpp:1581-1586 | a query with two AND-ed key conditions for which the seek returns a row that the scan does not |
| `Queries.SplitAnd` | dataserver/maketable/maketable_select.hpp:289-326 | the AND-ed conditions are the key conditions and the others |
| `Queries.SelectsMeans` | dataserver/maketable/maketable_select.hpp:442-592 | each search condition in plain comparisons of the value of its column |
| `Queries.SelectsLaws` | dataserver/maketable/maketable_select.hpp:442-592 | NOT is the complement of IN, IS NULL of IS NOT NULL; LESS_EQ and GREATER_EQ are the strict ones or WHERE, BETWEEN is both; LESS, WHERE and GREATER exclude each other and leave nothing out; LESS grows with its bound |
| `Queries.UsesIndexIff` | dataserver/maketable/maketable_select.hpp:910-941 | a seek is chosen exactly if no lambda or null condition is OR-ed, and some key condition is AND-ed, or one is OR-ed and nothing else is |
| `QueryProbes.SeekRight` | dataserver/maketable/maketable_select.hpp:910-924 | without lambdas the seek is right about every row if and only if the AND-ed key conditions agree on the key value of every test row that the rest of the query accepts; there are finitely many test rows |
| `QueryProbes.SeekRightOpen` | dataserver/maketable/maketable_select.hpp:910-924 | if the rest accepts some row at every key value the seek is right about every row if and only if the AND-ed key conditions agree at each of their literals and at the values next to it |
| `QueryProbes.SeekRightIf` | dataserver/maketable/maketable_select.hpp:910-924 | whatever the rest is, lambdas included, that agreement is enough |
| `QueryProbes.RightAt` | dataserver/maketable/maketable_select.hpp:1557-1586 | the seek is right about a row exactly if the rest of the query refuses it or the AND-ed key conditions agree on its key value |
| `QueryProbes.AllIsOpen` | dataserver/maketable/maketable_select.hpp:604-632 | an OR-ed ALL with nothing but key conditions AND-ed accepts some row at every key value |
| `QueryProbes.TestRowFor` | dataserver/maketable/maketable_select.hpp:289-326 | every row has a test row that no condition of the query without lambdas tells from it |
| `IndexTrees.FindSlot` | dataserver/system/index_tree_t.hpp:127-167 | binary search on an index page: the last entry not greater than what is searched for, or the first one; a null key is less than everything |
| `IndexTrees.FindPage` | dataserver/system/index_tree_t.hpp:169-188 | find_page: a row with the whole key, if there is one, is on the data page found |
| `IndexTrees.FirstPage` | dataserver/system/index_tree_t.hpp:191-261 | first_page, with the loop that goes back over pages: all rows before the page found come before the value, exactly if the table has no gap for the value before the page that the index pages lead to |
| `IndexTrees.FirstPageIff` | dataserver/system/index_tree_t.hpp:191-261 | the same for the function that the loop computes, over all trees, tables and values; the condition names only these |
| `IndexTrees.FirstPageAlways` | dataserver/system/index_tree_t.hpp:191-261 | first_page is right for every value if and only if, for every page without rows that follows some row, the index pages lead the first column of the last row before it there or to an earlier page |
| `IndexTrees.StartsEarly` | dataserver/system/index_tree_t.hpp:191-261 | first_page never starts behind a row that comes after the value, on any table |
| `IndexTrees.HoleHidesRow` | dataserver/system/index_tree_t.hpp:234-247 | a table in which an empty page hides a row with the value from first_page |
| `QueryScans.Query.PageLowerBound` | dataserver/system/datapage.h:161-180 | binary search on a page, by the first key column or by the whole key |
| `QueryScans.Query.LowerBound` | dataserver/maketable/maketable_scan.hpp:57-111 | the first row that is not before the value in key order, from the page that first_page finds on, over all pages, and whether it has the value; the first of the whole table exactly if first_page is right for the value |
| `QueryScans.Query.ScanNext` | dataserver/maketable/maketable_scan.hpp:113-138 | the first row from a position on that the callback refuses |
| `QueryScans.Query.FindWithIndex` | dataserver/maketable/maketable_scan.hpp:9-55 | the only row with the key, of any number of columns, or none; in a table of one data page rows that are not in use are passed over |
| `KeyOrders.KeyLessTotal` | dataserver/maketable/maketable_meta.h:257-311 | the key order is total: two rows are in order, or have the same key |
| `KeyOrders.KeyLessIff` | dataserver/maketable/maketable_meta.h:257-311 | a row is less exactly if it agrees in the first key columns and then has a smaller value, or a greater one in a descending column |
| `QueryPlans.SeekTable.PushUnique` | dataserver/maketable/maketable_scan.hpp:176-203 | the result stays in key order without repetition; true exactly if the row was not there |
| `QueryPlans.SeekTable.ScanFrom` | dataserver/maketable/maketable_scan.hpp:113-138 | calls back for the rows from a position on while they satisfy the predicate, or until the limit is reached |
| `QueryPlans.SeekTable.ScanUsed` | dataserver/maketable/maketable.h:77-84 | calls back for the rows in use from the start of the table on while they satisfy the predicate, or until the limit is reached |
| `QueryPlans.SeekTable.ScanBefore` | dataserver/maketable/maketable_select.hpp:1167-1179 | scan_less finds exactly the rows in use up to a value in key order |
| `QueryPlans.SeekTable.ScanAfter` | dataserver/maketable/maketable_select.hpp:1181-1202 | scan_greater finds exactly the rows after a value in key order, on every table, in use or not |
| `QueryPlans.SeekTable.ScanAfterEq` | dataserver/maketable/maketable_select.hpp:1204-1217 | scan_greater_eq finds exactly the rows from a value on that the search does not start behind |
| `QueryPlans.SeekTable.ScanBetween` | dataserver/maketable/maketable_select.hpp:1285-1317 | scan_between finds exactly the rows between two values, in either direction of the key, that the search does not start behind |
| `QueryPlans.SeekTable.ScanWhere` | dataserver/maketable/maketable_select.hpp:1118-1155 | scan_where finds exactly the rows with a value, by look-up or by lower_bound and scan_next for a composite key, that the search does not start behind; the look-up in a table of one data page finds rows in use only |
| `QueryPlans.SeekTable.ScanIn` | dataserver/maketable/maketable_select.hpp:1157-1165 | scan_if for IN finds exactly what the look-ups of its values find |
| `QueryPlans.SeekTable.SeekWithIndex` | dataserver/maketable/maketable_select.hpp:1565-1579 | for each kind of key condition and both directions of the key: adds exactly the rows that the condition and the rest of the query accept, that its search does not start behind, and that are in use if its loop passes over the others |
| `QueryPlans.SeekTable.Select` | dataserver/maketable/maketable_select.hpp:1581-1586 | on every table the seek plan returns exactly the rows that some of its key conditions finds, in key order; with a limit min(TOP, all) of them |
| `QueryResults.Scan` | dataserver/maketable/maketable_select.hpp:1027-1040 | the scan plan returns exactly the rows in use that the query asks for, in key order, cut off by TOP; AsksMeans and ScanNot say which rows these are |
| `QueryResults.AsksMeans` | dataserver/maketable/maketable_select.hpp:1004-1009 | the rows asked for, term by term: those in use that some OR-ed search condition and every AND-ed one accepts |
| `QueryResults.ScanNot` | dataserver/maketable/maketable_select.hpp:512-518 | with NOT as the only condition these are the rows in use whose value differs from all of the list |
| `QueryResults.SortRange` | dataserver/maketable/maketable_select.hpp:879-906 | ORDER BY over several columns: a permutation of the rows in the lexicographic order of all columns |
| `QueryResults.StableLex` | dataserver/maketable/maketable_select.hpp:896-906 | a stable sort by the first column keeps the order that the other columns gave |
| `QueryResults.StableSort` | dataserver/maketable/maketable_select.hpp:726-743 | a permutation in the order of the column, rows with equal values in the order they had |
| `QueryResults.RemovedOrder` | dataserver/maketable/maketable_select.hpp:952-985 | dropping a sole ORDER BY on the first key column in its direction leaves the rows in that order |
| `QueryResults.ScanOrSeek` | dataserver/maketable/maketable_select.hpp:1682-1715 | the chosen plan returns min(limit, all) of its rows in key order, a scan the first ones; a limit of 0 counts as 1, so the limit is kept exactly if it is not 0 or there are no rows |
| `QueryResults.Values` | dataserver/maketable/maketable_select.hpp:1719-1794 | no later row has a smaller value in an ascending ORDER BY column, or a greater one in a descending column, as long as the columns before it agree; the rows are those of the plan, cut off by TOP; with TOP and no sorting, the first ones on a scan and as many of them in key order on a seek, min(TOP, all) in number, but one for TOP 0 if there are any |
| `QueryResults.LexIsOrdered` | dataserver/maketable/maketable_select.hpp:726-743 | rows in the lexicographic order of the ORDER BY columns are ordered as its terms say |
| `QueryResults.TopMeans` | dataserver/maketable/maketable_select.hpp:636-668 | the limit is that of the first TOP |
| `QueryResults.TopZero` | dataserver/maketable/maketable_select.hpp:1719-1764 | a table of one row, for which SELECT TOP 0 returns the row |
| `QueryRights.PlanIsRight` | dataserver/maketable/maketable_select.hpp:910-941 | for every table, and every query with one AND-ed key condition or alike ones: the plan gives the rows the query asks for if and only if it is a scan, or no row out of use is accepted where the loop does not pass over it and every row asked for is accepted by a condition whose loop begins in time |
| `QueryRights.StartsRightReaches` | dataserver/maketable/maketable_select.hpp:1118-1317 | if the searches of all values that a condition accepts itself start right, every row asked for is reached |
| `QueryRights.GapsIff` | dataserver/maketable/maketable_select.hpp:1118-1317 | one AND-ed key condition, all rows in use and accepted by the rest: the seek gives what the query asks for if and only if its searches start right |
| `QueryRights.UnusedIff` | dataserver/system/datatable.inl:119-138 | if the searches start right, a seek gives what the query asks for if and only if no row out of use is accepted by the rest and a key condition whose loop does not pass over it |
| `QueryRights.BeginsUsed` | dataserver/maketable/maketable_select.hpp:1167-1179 | seeks that begin at the start of the table give rows in use only |
| `QueryRights.UnusedRow` | dataserver/maketable/maketable_scan.hpp:113-138 | a table with a ghosted row that a seek returns and a scan does not |
| `UnionFinds.UnionFind.Find` | dataserver/numeric/union_find.h:65-75 | returns the root, changes no root by its halving, brings the node to at most half its depth, rounded up, and terminates |
| `UnionFinds.UnionFind.Connected` | dataserver/numeric/union_find.h:77-80 | true exactly if the united pairs join the two nodes |
| `UnionFinds.UnionFind.Unite` | dataserver/numeric/union_find.h:97-130 | false exactly if the nodes were joined already; else their sets become one and there is one set less |
| `UnionFinds.UnionFind.Insert` | dataserver/numeric/union_find.h:87-95 | registers a node once |
| `UnionFinds.UnionFind.Clear` | dataserver/numeric/union_find.h:54-63 | every node is alone again |
| `UnionFinds.DepthLog` | dataserver/numeric/union_find.h:65-75 | two to the depth of a node is at most the number of nodes in its component |
| `UnionFinds.Halve` | dataserver/numeric/union_find.h:69-74 | moving a node under its grandparent keeps the weights and every root |
| `UnionFinds.LinkRoots` | dataserver/numeric/union_find.h:122-128 | linking the lighter root under the heavier one joins exactly their two sets and keeps the weights |
| `UnionFinds.LinkCounts` | dataserver/numeric/union_find.h:122-128 | the counters stay the number of roots and the sum of the weights of the roots |
| `UnionFinds.LinkMembers` | dataserver/numeric/union_find.h:122-128 | the weight of a root stays the number of nodes in its component (1 if it has no weight yet) |
| `UnionFinds.JoinedTrans` | dataserver/numeric/union_find.h:28-33 | joined is transitive |
| `UnionFinds.JoinedLeast` | dataserver/numeric/union_find.h:28-33 | joined is the smallest equivalence that contains the united pairs |
| `IntervalMaps.IntervalMap.Assign` | dataserver/numeric/interval_map.h:56-124 | a key in the interval has the new value, every other key the one it had; next to each other there are always different values; over any history the last covering assignment decides |
| `IntervalMaps.IntervalMap.Get` | dataserver/numeric/interval_map.h:39-42 | the value of the last covering assignment, or the initial one |
| `IntervalMaps.AssignedMeans` | dataserver/numeric/interval_map.h:56-124 | what the entries left by an assignment mean at every key |
| `IntervalMaps.AssignedCanonical` | dataserver/numeric/interval_map.h:71-123 | these entries ascend, and neighbours differ |
| `IntervalMaps.SameMap` | dataserver/numeric/interval_map.h:33-37 | the representation is unique: maps that agree at every key are equal |
| `IntervalCells.IntervalCell.Insert` | dataserver/spatial/interval_cell.cpp:47-114 | the set gains exactly this cell, and its runs stay maximal |
| `IntervalCells.IntervalCell.Find` | dataserver/spatial/interval_cell.cpp:342-355 | decides membership |
| `IntervalCells.IntervalCell.Size` | dataserver/spatial/interval_cell.cpp:357-391 | the number of cells of the set, except that the set of all cells has size 0: right if and only if some cell is missing |
| `IntervalCells.InsertedIn` | dataserver/spatial/interval_cell.cpp:47-114 | what the marks left by an insertion mean for every cell |
| `IntervalCells.InsertedCanonical` | dataserver/spatial/interval_cell.cpp:47-114 | the marks left by an insertion are starts and ends of maximal runs |
| `IntervalCells.SameMarks` | dataserver/spatial/interval_cell.cpp:47-114 | the marks are determined by the set, so the order of the insertions does not matter |
| `IntervalCells.SizeCard` | dataserver/spatial/interval_cell.cpp:357-391 | the lengths of the runs, each computed in 32 bits, add up to the number of cells unless all cells are in the set |
| `IntervalCells.FullSet` | dataserver/spatial/interval_cell.cpp:357-391 | the set of all cells, whose size comes out as 0 |
| `PriorityQueues.PriorityQueue.Insert` | dataserver/numeric/priority_queue.h:126-132 | heap order and back-index stay, the queue gains exactly this element |
| `PriorityQueues.PriorityQueue.GetMin` | dataserver/numeric/priority_queue.h:115-124 | removes and returns an element of minimal weight, and only this one |
| `PriorityQueues.PriorityQueue.Lower` | dataserver/numeric/priority_queue.h:134-138 | restores heap order after the weight of an element was lowered |
| `PriorityQueues.PriorityQueue.FixUp` | dataserver/numeric/priority_queue.h:87-95 | restores heap order where one element may be too light |
| `PriorityQueues.PriorityQueue.FixDown` | dataserver/numeric/priority_queue.h:97-113 | restores heap order where one element may be too heavy |
| `PriorityQueues.AfterLowering` | dataserver/numeric/priority_queue.h:134-138 | lowering a weight leaves exactly what lower asks for |
| `PriorityQueues.TopIsMin` | dataserver/numeric/priority_queue.h:41-44 | the top of a heap has minimal weight |
| `PriorityQueues.Drain` | dataserver/numeric/priority_queue.h:115-124 | taking elements until the queue is empty gives each once, by non-decreasing weight |
| `SequenceLocks.RunInv` | dataserver/common/spinlock.h:43-53 | over all interleavings the counter tells how many writer sections are complete, or a writer holds it |
| `SequenceLocks.OneWriter` | dataserver/common/spinlock.h:43-53 | at most one writer is inside |
| `SequenceLocks.CommitIff` | dataserver/common/spinlock.h:81-86 | commit succeeds exactly if no writer is inside and the sections since try_lock are a multiple of 2^32 - 1 |
| `SequenceLocks.ReaderSafe` | dataserver/common/spinlock.h:81-97 | a reader whose commit succeeds was overlapped by no writer section, if fewer than 2^32 - 1 were completed since its try_lock |
| `SequenceLocks.ReaderFooled` | dataserver/common/spinlock.h:50-53 | with 2^32 - 1 sections in between commit succeeds although writers were inside |
| `SequenceLocks.RecordRun` | dataserver/common/spinlock.h:81-97 | over any run in which a reader neither reads again nor commits, the counter it read stays its own, and it counts as overlapped exactly if a writer has entered since |
| `BresenhamLines.PlotLine` | doc/bresenham.c:13-31 | plots one pixel more than the longer side has steps and then ends, from one end to the other without a gap, each within half a pixel of the ideal line |
| `BresenhamLines.Turn` | doc/bresenham.c:20-30 | one turn goes on along the longer side, never past either end, and stays within half a pixel |
| `BresenhamLines.NoOverflow` | doc/bresenham.c:13-31 | for lines of at most (2^31 - 1) / 3 in either direction no value that a turn computes leaves the 32-bit range |

## Left out

- Masks of blocks, pages and threads are sets of bit positions, not machine words; the two-level thread mask (`thread_mask_t`) is one set.
- Block heads are kept beside the page bytes, by pool block id, not in the reserved bytes of the page heads; the heads move with the bytes.
- A block that the allocator gives anew is taken to have no locks in its page heads: memory is mapped with zeros, and a block is released only when it has none.
- The callback of `defragment` is a function of the questions asked so far; its effects on the pool are applied in order after the allocator has finished, which gives the same lists.
- A failing `mmap` in the middle of an allocation, unmapping errors, the committed mode of the allocator, and its linear search without the address index.
- `std::sort`, `std::lower_bound` and `std::stable_sort` are written as loops; for the address index, where the order is unique, and for arenas with equally many blocks, where it does not matter.
- The mutex itself, the worker thread with its timer, file reading, checksums and tracing: reading a block copies from a fixed file.
- Integer widths: addresses, ids, weights and the coordinates of lines are unbounded (`BresenhamLines.NoOverflow` says up to which length lines need no more than 32 bits), except for the 32-bit counter of the sequence lock and the 32-bit cell numbers.
- `page_is_fixed` and the size reports of the pool.
- Column values are integers; the plans use only that they are ordered, `QueryProbes` also that a literal has neighbours. Floating point keys with a tolerance, NULL values inside keys, and text collation are not part of this model.
- Rows that are not in use have keys like the others: all slots of the table together are in key order, without repetition. Columns of forwarding rows are not told apart from others.
- Index pages are a tree of values; reading them from the file, and the scans over index rows, are not part of this model.
- Spatial seeks and conditions, `scan_prev`, COUNT, `for_record`, and SELECT DISTINCT.
- QueryResults.Values: for TOP without ORDER BY on a seek it does not say which of the wanted rows come back, as that depends on the order of the conditions.
- QueryProbes.SeekRight: for queries with AND-ed lambdas there is no finite condition, as a lambda may be any function; `SeekRightIf` and `SeekRightOpen` cover them.
- `interval_cell::insert_range` and `insert_depth_1..3`, which are marked as untested in the source and do not keep the runs maximal.
- The copying and swapping members of the containers, `interval_set`, `merge_cells`, the other Bresenham and Bezier routines, geography, the Windows allocator, code generation and export.
