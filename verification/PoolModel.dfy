/** The buffer pool (page_bpool.cpp) as a state machine over values: what one call does to the page table,
    the block heads, the four lists, the thread table and the allocated memory. */
module PoolModel {
  import opened Wrappers
  import opened Sequences
  import opened Arenas
  import Moves
  import opened Threads
  import opened BlockLists

  /** The file and the settings of a pool. Pool block and file block sizes agree; sizes are in bytes. */
  datatype Config = Config(file: seq<Page>, minPool: nat, maxPool: nat, init: nat) {
    function FileSize(): nat { |file| * PAGE_SIZE }

    function BlockCount(): nat { (|file| + 7) / 8 }

    /** info.block_page_count: the last file block may have fewer pages. */
    function PageCount(r: nat): nat {
      if r + 1 == BlockCount() && |file| % 8 != 0 then |file| % 8 else BLOCK_PAGES
    }

    /** The arenas reserved for the file, and the blocks in them. */
    function Reserved(): nat { (BlockCount() + 15) / 16 }

    /** What the constructors establish. */
    ghost predicate Valid() {
      && |file| > BLOCK_PAGES && BlockCount() <= 0x100_0000
      && minPool <= maxPool <= FileSize()
    }
  }

  /** An entry of the page table: the pool block that holds the file block (0 if none), and which pages are locked. */
  datatype BlockIndex = BlockIndex(blockId: nat, pageLock: set<nat>)

  datatype View = View(
    table: seq<BlockIndex>,
    heads: map<nat, BlockHead>,
    lock: seq<nat>, unlock: seq<nat>, free: seq<nat>, fixed: seq<nat>,
    threads: seq<Slot>,
    adr: map<nat, nat>,
    data: map<nat, Block>)

  const NO_LOCKS: seq<set<nat>> := [{}, {}, {}, {}, {}, {}, {}, {}]
  const ZERO_HEAD := BlockHead(0, false, NO_LOCKS)

  /** What the allocator gives for a new block: its id, its address and whatever bytes are there. */
  datatype Grant = Grant(id: nat, adr: nat, bytes: Block)

  datatype Result = PageAt(adr: nat) | PageNotFound | TooManyThreads | BadAlloc

  function Head(v: View, id: nat): BlockHead {
    if id in v.heads then v.heads[id] else ZERO_HEAD
  }

  function Index(v: View, r: nat): BlockIndex {
    if r < |v.table| then v.table[r] else BlockIndex(0, {})
  }

  function WithIndex(v: View, r: nat, x: BlockIndex): View {
    if r < |v.table| then v.(table := v.table[r := x]) else v
  }

  function Bits(h: BlockHead, i: nat): set<nat> {
    if i < |h.pageLockThread| then h.pageLockThread[i] else {}
  }

  function WithBits(h: BlockHead, i: nat, bits: set<nat>): BlockHead {
    if i < |h.pageLockThread| then h.(pageLockThread := h.pageLockThread[i := bits]) else h
  }

  function BlocksOf(s: seq<Slot>, k: nat): set<nat> {
    if k < |s| && s[k].Thread? then s[k].blocks else {}
  }

  function WithBlocks(s: seq<Slot>, k: nat, blocks: set<nat>): seq<Slot> {
    if k < |s| && s[k].Thread? then s[k := Thread(s[k].id, blocks)] else s
  }

  // ---- locking ----

  /** lock_block_head: the block was loaded before; oldLock are the pages that were locked. */
  function LockHead(v: View, id: nat, bit: nat, slot: Option<nat>, fix: bool, oldLock: set<nat>): View {
    var h0 := Head(v, id);
    var h := if slot.Some? then WithBits(h0, bit, Bits(h0, bit) + {slot.value}) else h0;
    if h.fixedBlock then
      v.(heads := v.heads[id := h])
    else if slot.None? || fix then
      v.(heads := v.heads[id := h.(fixedBlock := true)],
         lock := if oldLock != {} then Minus(v.lock, id) else v.lock,
         unlock := if oldLock != {} then v.unlock else Minus(v.unlock, id),
         fixed := [id] + v.fixed)
    else
      v.(heads := v.heads[id := h],
         lock := if oldLock != {} then [id] + Minus(v.lock, id) else [id] + v.lock,
         unlock := if oldLock != {} then v.unlock else Minus(v.unlock, id),
         threads := WithBlocks(v.threads, slot.value, BlocksOf(v.threads, slot.value) + {h.realBlock}))
  }

  /** lock_block_init clears the masks of the pages that the file has, and no others. */
  function InitMasks(c: Config, h: BlockHead, r: nat): seq<set<nat>> {
    seq(BLOCK_PAGES, (i: nat) => if i < c.PageCount(r) then {} else Bits(h, i))
  }

  /** lock_block_init: the block has just been read from the file. */
  function LockInit(c: Config, v: View, r: nat, id: nat, bit: nat, slot: Option<nat>, fix: bool): View {
    var h := BlockHead(r, false, InitMasks(c, Head(v, id), r));
    if slot.None? || fix then
      v.(heads := v.heads[id := h.(fixedBlock := true)], fixed := [id] + v.fixed)
    else
      v.(heads := v.heads[id := WithBits(h, bit, Bits(h, bit) + {slot.value})], lock := [id] + v.lock,
         threads := WithBlocks(v.threads, slot.value, BlocksOf(v.threads, slot.value) + {r}))
  }

  /** The table after the pool blocks ids have lost their file blocks. */
  function EvictTable(table: seq<BlockIndex>, ids: seq<nat>): seq<BlockIndex> {
    seq(|table|, (r: nat) requires r < |table| => if table[r].blockId in ids then table[r].(blockId := 0) else table[r])
  }

  function EvictHeads(heads: map<nat, BlockHead>, ids: seq<nat>): map<nat, BlockHead> {
    map id | id in heads :: if id in ids then heads[id].(realBlock := 0) else heads[id]
  }

  /** free_unlock_blocks: the last count blocks of the unlock list (all of them if there are fewer) become free. */
  function FreeUnlock(v: View, count: nat): View {
    var n := if count < |v.unlock| then |v.unlock| - count else 0;
    var ids := v.unlock[n..];
    v.(table := EvictTable(v.table, ids), heads := EvictHeads(v.heads, ids), unlock := v.unlock[..n], free := v.free + ids)
  }

  function UsedSize(v: View): nat { |v.adr| * BLOCK_SIZE }

  /** free_pool_block: how many blocks to free when the pool is over its limit. */
  function FreePoolBlock(c: Config, current: nat): nat {
    var n := if current > c.minPool then (current - c.minPool) / BLOCK_SIZE else 0;
    if n > 2 then n else 2
  }

  /** can_alloc_block, with the eviction it may do. */
  function CanAlloc(c: Config, v: View): (View, bool) {
    if c.maxPool < c.FileSize() then
      if v.free != [] then (v, true)
      else if UsedSize(v) >= c.maxPool && v.unlock != [] then (FreeUnlock(v, FreePoolBlock(c, UsedSize(v))), true)
      else (v, BLOCK_SIZE <= c.Reserved() * ARENA_SIZE - UsedSize(v))
    else (v, true)
  }

  /** alloc_block: reuses the first free block, or takes a fresh one. */
  function Alloc(c: Config, v: View, given: Grant): (View, nat) {
    if v.free != [] then (v.(free := v.free[1..]), v.free[0])
    else (v.(adr := v.adr[given.id := given.adr], data := v.data[given.id := given.bytes]), given.id)
  }

  /** read_block_from_file: overwrites the pages the file has. */
  function ReadBlock(c: Config, was: Block, r: nat): Block {
    seq(BLOCK_PAGES, (i: nat) requires i < BLOCK_PAGES =>
      if i < c.PageCount(r) && 8 * r + i < |c.file| then c.file[8 * r + i] else if i < |was| then was[i] else ZeroPage())
  }

  /** lock_page_fixed. */
  function Lock(c: Config, v: View, tid: nat, page: nat, fix: bool, given: Grant): (View, Result) {
    var r, bit := page / 8, page % 8;
    if r == 0 then (v, PageAt(Place(v, 0, bit)))
    else if c.BlockCount() <= r then (v, PageNotFound)
    else if tid != c.init && InsertedAt(v.threads, tid).None? then (v, TooManyThreads)
    else
      var slot := if tid == c.init then None else InsertedAt(v.threads, tid);
      var v1 := if tid == c.init then v else v.(threads := Inserted(v.threads, tid));
      if Index(v, r).blockId != 0 then
        var w := LockLoaded(v1, r, bit, slot, fix);
        (w, PageAt(Place(w, Index(v, r).blockId, bit)))
      else
        var (v2, ok) := CanAlloc(c, v1);
        if !ok then (v2, BadAlloc)
        else
          var (w, id) := LockFresh(c, v2, r, bit, slot, fix, given);
          (w, PageAt(Place(w, id, bit)))
  }

  function LockLoaded(v: View, r: nat, bit: nat, slot: Option<nat>, fix: bool): View {
    var x := Index(v, r);
    LockHead(WithIndex(v, r, x.(pageLock := x.pageLock + {bit})), x.blockId, bit, slot, fix, x.pageLock)
  }

  function LockFresh(c: Config, v: View, r: nat, bit: nat, slot: Option<nat>, fix: bool, given: Grant): (View, nat) {
    var (v1, id) := Alloc(c, v, given);
    var was := if id in v1.data then v1.data[id] else [];
    var v2 := v1.(data := v1.data[id := ReadBlock(c, was, r)]);
    var v3 := WithIndex(v2, r, BlockIndex(id, Index(v2, r).pageLock + {bit}));
    (LockInit(c, v3, r, id, bit, slot, fix), id)
  }

  /** The address of page number bit of a pool block. */
  function Place(v: View, id: nat, bit: nat): nat {
    (if id in v.adr then v.adr[id] else 0) + PAGE_SIZE * bit
  }

  // ---- unlocking ----

  datatype Unlocked = StillLocked | NowUnlocked | Fixed

  /** unlock_block_head. */
  function UnlockHead(v: View, r: nat, bit: nat, k: nat): (View, Unlocked) {
    var x := Index(v, r);
    var id := x.blockId;
    var h := WithBits(Head(v, id), bit, Bits(Head(v, id), bit) - {k});
    var v1 := v.(heads := v.heads[id := h]);
    if Bits(h, bit) != {} then (v1, StillLocked)
    else
      var v2 := WithIndex(v1, r, BlockIndex(id, x.pageLock - {bit}));
      if x.pageLock - {bit} != {} then (v2, StillLocked)
      else if h.fixedBlock then (v2, Fixed)
      else (v2.(lock := Minus(v2.lock, id), unlock := [id] + v2.unlock), NowUnlocked)
  }

  /** Does the thread in slot k lock a page below n of the pool block? */
  predicate HoldsPage(h: BlockHead, k: nat, n: nat) {
    exists i: nat :: i < n && k in Bits(h, i)
  }

  /** unlock_page; none if the page does not exist. */
  function Unlock(c: Config, v: View, tid: nat, page: nat): (View, Option<bool>) {
    var r, bit := page / 8, page % 8;
    if r == 0 then (v, Some(false))
    else if c.BlockCount() <= r then (v, None)
    else if tid == c.init then (v, Some(false))
    else if Index(v, r).blockId == 0 || bit !in Index(v, r).pageLock then (v, Some(false))
    else
      var k := IndexOf(v.threads, tid);
      if k == |v.threads| then (v, Some(false))
      else
        var (w, res) := UnlockHead(v, r, bit, k);
        if res == NowUnlocked then (ClearBlockOf(w, k, r), Some(true))
        else if HoldsPage(Head(w, Index(w, r).blockId), k, c.PageCount(r)) then (w, Some(false))
        else (ClearBlockOf(w, k, r), Some(false))
  }

  function ClearBlockOf(v: View, k: nat, r: nat): View {
    v.(threads := WithBlocks(v.threads, k, BlocksOf(v.threads, k) - {r}))
  }

  /** thread_unlock_page. */
  function ThreadUnlockPage(v: View, k: nat, r: nat, bit: nat): (View, bool) {
    if Index(v, r).blockId == 0 || bit !in Index(v, r).pageLock then (v, false)
    else
      var (w, res) := UnlockHead(v, r, bit, k);
      (w, res == NowUnlocked)
  }

  /** thread_unlock_block, from page i on. */
  function ThreadUnlockBlock(c: Config, v: View, k: nat, r: nat, i: nat): (View, bool)
    decreases c.PageCount(r) - i
  {
    if i >= c.PageCount(r) then (v, false)
    else
      var (w, done) := ThreadUnlockPage(v, k, r, i);
      if done then (w, true) else ThreadUnlockBlock(c, w, k, r, i + 1)
  }

  /** The loop of unlock_thread over the file blocks of a mask, in ascending order, up to (not including) n. */
  function ThreadUnlockBlocks(c: Config, v: View, k: nat, mask: set<nat>, n: nat): (View, nat) {
    if n == 0 then (v, 0)
    else
      var (w, count) := ThreadUnlockBlocks(c, v, k, mask, n - 1);
      if n - 1 in mask && n - 1 != 0 then
        var (u, done) := ThreadUnlockBlock(c, w, k, n - 1, 0);
        (u, if done then count + 1 else count)
      else (w, count)
  }

  /** unlock_thread: gives up every page of the thread; the result is the number of blocks that became unlocked. */
  function UnlockThread(c: Config, v: View, tid: nat, remove: bool): (View, nat) {
    var k := IndexOf(v.threads, tid);
    if tid == c.init || k == |v.threads| then (v, 0)
    else
      var (w, count) := ThreadUnlockBlocks(c, v, k, BlocksOf(v.threads, k), c.BlockCount());
      (if remove then EraseSlot(w, k) else ClearSlot(w, k), count)
  }

  function EraseSlot(v: View, k: nat): View {
    if k < |v.threads| then v.(threads := v.threads[k := NoThread]) else v
  }

  function ClearSlot(v: View, k: nat): View {
    v.(threads := WithBlocks(v.threads, k, {}))
  }

  // ---- giving memory back ----

  /** page_bpool_alloc_unix::release: the blocks go back to the allocator. */
  function Release(v: View, ids: seq<nat>): View {
    var gone := set id | id in ids;
    v.(heads := v.heads - gone, adr := v.adr - gone, data := v.data - gone)
  }

  /** free_unlocked. */
  function FreeUnlocked(c: Config, v: View, decommit: bool): View {
    var w := FreeUnlock(v, c.BlockCount());
    if decommit then Release(w, w.free).(free := []) else w
  }

  /** The first half of async_release: the number of blocks the second half may release. */
  function AsyncChoose(c: Config, v: View): (View, nat) {
    var (w, ok) := CanAlloc(c, v);
    (w, if ok && w.free != [] then if |w.free| / 2 > 1 then |w.free| / 2 else 1 else 0)
  }

  /** The second half of async_release, under a mutex of its own. */
  function AsyncRelease(v: View, count: nat): View {
    var n := if count < |v.free| then |v.free| - count else 0;
    Release(v, v.free[n..]).(free := v.free[..n])
  }

  /** What defragment does before it asks the allocator. */
  function BeforeDefragment(c: Config, v: View): View {
    var (w, ok) := CanAlloc(c, v);
    if ok && w.free != [] then Release(w, w.free).(free := []) else w
  }

  /** One accepted move of a compaction; place is the address of the block's new home. */
  function MoveUnlocked(v: View, from: nat, to: nat, place: nat): View {
    var h := Head(v, from);
    var w := WithIndex(v, h.realBlock, Index(v, h.realBlock).(blockId := to));
    w.(heads := (v.heads - {from})[to := h], unlock := [to] + Minus(v.unlock, from),
       adr := (v.adr - {from})[to := place], data := Moves.Move(v.data, from, to))
  }

  function MoveAll(v: View, log: seq<Moves.Call>, places: map<nat, nat>): View {
    if log == [] then v
    else
      var w := MoveAll(v, log[..|log| - 1], places);
      var e := log[|log| - 1];
      if e.moved then MoveUnlocked(w, e.from, e.to, if e.to in places then places[e.to] else 0) else w
  }

  /** defragment, for the questions the allocator asks and the addresses of its block ids. */
  function Defragment(c: Config, v: View, log: seq<Moves.Call>, places: map<nat, nat>): View {
    var w := BeforeDefragment(c, v);
    if w.unlock == [] then w else MoveAll(w, log, places)
  }
}
