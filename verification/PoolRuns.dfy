/** Runs of the buffer pool: every call of every thread, in any order. Each call holds the mutex, so it is one step;
    async_release takes the mutex twice, so it is two. */
module PoolRuns {
  import opened Wrappers
  import opened Arenas
  import opened Moves
  import opened Threads
  import BlockLists
  import opened PoolModel
  import opened PoolInvariant
  import opened PoolLocking
  import opened PoolUnlocking
  import opened PoolMemory
  import opened PoolSafety

  datatype Event =
    | LockPage(tid: nat, page: nat, fix: bool, given: Grant)
    | UnlockPage(tid: nat, page: nat)
    | UnlockAll(tid: nat, remove: bool)
    | FreeAll(decommit: bool)
    | ReleaseChoose
    | ReleaseSome(count: nat)
    | Compact(log: seq<Call>, places: map<nat, nat>)

  function Step(c: Config, v: View, e: Event): View {
    match e
    case LockPage(tid, page, fix, given) => Lock(c, v, tid, page, fix, given).0
    case UnlockPage(tid, page) => Unlock(c, v, tid, page).0
    case UnlockAll(tid, remove) => UnlockThread(c, v, tid, remove).0
    case FreeAll(decommit) => FreeUnlocked(c, v, decommit)
    case ReleaseChoose => AsyncChoose(c, v).0
    case ReleaseSome(count) => AsyncRelease(v, count)
    case Compact(log, places) => Defragment(c, v, log, places)
  }

  /** Does lock_page_fixed ask the allocator for a fresh block? */
  predicate NeedsGrant(c: Config, v: View, tid: nat, page: nat) {
    && 1 <= page / 8 < c.BlockCount() && (tid == c.init || InsertedAt(v.threads, tid).Some?)
    && Index(v, page / 8).blockId == 0 && CanAlloc(c, v).0.free == []
  }

  /** What the pool may rely on: the allocator keeps its promises. */
  ghost predicate Enabled(c: Config, v: View, e: Event) {
    match e
    case LockPage(tid, page, fix, given) => NeedsGrant(c, v, tid, page) ==> GrantOk(v, given)
    case Compact(log, places) =>
      var w := BeforeDefragment(c, v);
      LogOk(w.data, log) && OnlyUnlocked(w.unlock, log) && PlacesOk(w.adr, log, places)
    case _ => true
  }

  // ---- lock_page_fixed ----

  /** What a caller gets: the address of the page in a loaded block, that shows the page of the file if the file has it,
      and the block is fixed or the page is locked by the caller. */
  ghost predicate Granted(c: Config, w: View, tid: nat, page: nat, fix: bool, res: Result) {
    var r, bit := page / 8, page % 8;
    var x := Index(w, r).blockId;
    && page / 8 < c.BlockCount()
    && x in w.heads && x in w.adr && res == PageAt(w.adr[x] + PAGE_SIZE * bit)
    && bit in Index(w, r).pageLock
    && (w.heads[x].fixedBlock || (tid != c.init && IndexOf(w.threads, tid) < |w.threads| && IndexOf(w.threads, tid) in Bits(w.heads[x], bit)))
    && (fix || tid == c.init ==> w.heads[x].fixedBlock)
    && x in w.data && |w.data[x]| == BLOCK_PAGES && (page < |c.file| ==> w.data[x][bit] == c.file[page])
  }

  lemma IndexSame(s: seq<Slot>, t: seq<Slot>, tid: nat)
    requires SameIds(s, t)
    ensures IndexOf(t, tid) == IndexOf(s, tid) && |t| == |s|
  {
  }

  lemma PageInBlock(c: Config, page: nat)
    requires page < |c.file|
    ensures page / 8 < c.BlockCount() && page % 8 < c.PageCount(page / 8)
  {
  }

  /** Neither way of locking takes a thread off the table or gives its slot to another. */
  lemma LoadedIds(v: View, r: nat, bit: nat, slot: Option<nat>, fix: bool)
    ensures SameIds(v.threads, LockLoaded(v, r, bit, slot, fix).threads)
  {
  }

  lemma FreshIds(c: Config, v: View, r: nat, bit: nat, slot: Option<nat>, fix: bool, given: Grant)
    ensures SameIds(v.threads, LockFresh(c, v, r, bit, slot, fix, given).0.threads)
  {
    hide ReadBlock, EvictTable, Index;
  }

  lemma LoadedGranted(c: Config, v: View, r: nat, bit: nat, slot: Option<nat>, fix: bool, tid: nat)
    requires Inv(c, v) && 1 <= r < c.BlockCount() && bit < BLOCK_PAGES && SlotOk(v, slot) && Index(v, r).blockId != 0
    requires if tid == c.init then slot == None else slot == Some(IndexOf(v.threads, tid))
    ensures var w := LockLoaded(v, r, bit, slot, fix);
      Granted(c, w, tid, 8 * r + bit, fix, PageAt(Place(w, Index(v, r).blockId, bit)))
  {
    hide Inv, LockLoaded, OnlyBlock, SameIds, BlockOk, Partition, ThreadsOk, Granted, IdOk;
    var w := LockLoaded(v, r, bit, slot, fix);
    LockLoadedOk(c, v, r, bit, slot, fix);
    LoadedIds(v, r, bit, slot, fix);
    IndexSame(v.threads, w.threads, tid);
    BlockFacts(c, v, r);
    ShownPage(c, w, r, bit, tid, fix);
  }

  lemma FreshGranted(c: Config, v: View, r: nat, bit: nat, slot: Option<nat>, fix: bool, tid: nat, given: Grant)
    requires Inv(c, v) && 1 <= r < c.BlockCount() && bit < BLOCK_PAGES && SlotOk(v, slot) && Index(v, r).blockId == 0
    requires v.free == [] ==> GrantOk(v, given)
    requires if tid == c.init then slot == None else slot == Some(IndexOf(v.threads, tid))
    ensures var (w, id) := LockFresh(c, v, r, bit, slot, fix, given);
      Granted(c, w, tid, 8 * r + bit, fix, PageAt(Place(w, id, bit)))
  {
    hide Inv, LockFresh, OnlyNew, SameIds, BlockOk, Partition, ThreadsOk, NewId, GrantOk, Granted, IdOk;
    var w := LockFresh(c, v, r, bit, slot, fix, given).0;
    LockFreshOk(c, v, r, bit, slot, fix, given);
    GrantFacts(c, v, given);
    FreshIds(c, v, r, bit, slot, fix, given);
    IndexSame(v.threads, w.threads, tid);
    ShownPage(c, w, r, bit, tid, fix);
  }

  /** A locked page of a loaded block shows the page of the file. */
  lemma ShownPage(c: Config, w: View, r: nat, bit: nat, tid: nat, fix: bool)
    requires Inv(c, w) && 1 <= r < c.BlockCount() && bit < BLOCK_PAGES && Index(w, r).blockId != 0
    requires bit in Index(w, r).pageLock
    requires var h := Head(w, Index(w, r).blockId);
      && (h.fixedBlock || (tid != c.init && IndexOf(w.threads, tid) < |w.threads| && IndexOf(w.threads, tid) in Bits(h, bit)))
      && (fix || tid == c.init ==> h.fixedBlock)
    ensures Granted(c, w, tid, 8 * r + bit, fix, PageAt(Place(w, Index(w, r).blockId, bit)))
  {
    hide Inv, Partition, ThreadsOk, BlockOk, IdOk, Config.BlockCount, Config.PageCount;
    BlockFacts(c, w, r);
    KeysFacts(c, w);
    var page := 8 * r + bit;
    if page < |c.file| { ShownBytes(c, w, r, bit); }
    assert page / 8 == r && page % 8 == bit;
  }

  lemma ShownBytes(c: Config, w: View, r: nat, bit: nat)
    requires Inv(c, w) && 1 <= r < c.BlockCount() && bit < BLOCK_PAGES && Index(w, r).blockId in w.data
    requires Index(w, r).blockId != 0 && 8 * r + bit < |c.file|
    ensures |w.data[Index(w, r).blockId]| == BLOCK_PAGES && w.data[Index(w, r).blockId][bit] == c.file[8 * r + bit]
  {
    hide Inv, Partition, ThreadsOk, BlockOk;
    BlockFacts(c, w, r);
    KeysFacts(c, w);
    PageInBlock(c, 8 * r + bit);
    assert Shows(c, w.data[Index(w, r).blockId], r);
  }

  /** While a file block is not loaded there is memory for it. */
  lemma CanAllocTrue(c: Config, v: View, r: nat)
    requires Inv(c, v) && 1 <= r < c.BlockCount() && Index(v, r).blockId == 0
    ensures CanAlloc(c, v).1
  {
    hide Inv;
    if v.free == [] {
      RoomForOne(c, v, r);
    }
  }

  /** The thread that calls lock_page_fixed, once it has a slot. */
  function WithThread(c: Config, v: View, tid: nat): View {
    if tid == c.init then v else v.(threads := Inserted(v.threads, tid))
  }

  function SlotOf(c: Config, v: View, tid: nat): Option<nat> {
    if tid == c.init then None else InsertedAt(v.threads, tid)
  }

  lemma WithThreadOk(c: Config, v: View, tid: nat)
    requires Inv(c, v) && (tid == c.init || InsertedAt(v.threads, tid).Some?)
    ensures Inv(c, WithThread(c, v, tid)) && KeepsAll(v, WithThread(c, v, tid))
    ensures SlotOk(WithThread(c, v, tid), SlotOf(c, v, tid))
    ensures tid != c.init ==> SlotOf(c, v, tid) == Some(IndexOf(WithThread(c, v, tid).threads, tid))
  {
    hide Inv, KeepsAll;
    ThreadFacts(c, v);
    if tid == c.init {
      KeepsRefl(c, v);
    } else {
      InsertThread(c, v, tid);
      InsertKeeps(v.threads, tid);
    }
  }

  /** lock_page_fixed fails exactly if the block of the page does not exist or the thread table is full; never for lack of memory.
      Otherwise the caller gets the page, and no other locked or fixed block is disturbed. */
  lemma LockOk(c: Config, v: View, tid: nat, page: nat, fix: bool, given: Grant)
    requires Inv(c, v) && (NeedsGrant(c, v, tid, page) ==> GrantOk(v, given))
    ensures Inv(c, Lock(c, v, tid, page, fix, given).0) && KeepsAll(v, Lock(c, v, tid, page, fix, given).0)
    ensures var (w, res) := Lock(c, v, tid, page, fix, given);
      if page < 8 then w == v && res == PageAt(v.adr[0] + PAGE_SIZE * page)
      else if c.BlockCount() <= page / 8 then w == v && res == PageNotFound
      else if tid != c.init && (forall k | 0 <= k < |v.threads| :: v.threads[k].Thread? && v.threads[k].id != tid) then w == v && res == TooManyThreads
      else Granted(c, w, tid, page, fix, res)
  {
    hide Inv, KeepsAll, Granted, LockLoaded, LockFresh, CanAlloc, GrantOk, Inserted, InsertedAt;
    var r, bit := page / 8, page % 8;
    KeysFacts(c, v);
    ThreadFacts(c, v);
    InsertKeeps(v.threads, tid);
    if r == 0 || c.BlockCount() <= r || (tid != c.init && InsertedAt(v.threads, tid).None?) {
      KeepsRefl(c, v);
    } else {
      WithThreadOk(c, v, tid);
      var v1, slot := WithThread(c, v, tid), SlotOf(c, v, tid);
      if Index(v, r).blockId != 0 {
        LockLoadedOk(c, v1, r, bit, slot, fix);
        LockLoadedKeeps(c, v1, r, bit, slot, fix);
        LoadedGranted(c, v1, r, bit, slot, fix, tid);
        KeepsTrans(v, v1, LockLoaded(v1, r, bit, slot, fix));
      } else {
        LoadBlock(c, v, v1, r, bit, slot, fix, tid, given);
      }
    }
  }

  /** The thread table does not matter for what is freed. */
  lemma SameFree(c: Config, v: View, w: View)
    requires w == v.(threads := w.threads)
    ensures CanAlloc(c, w).0.free == CanAlloc(c, v).0.free
  {
  }

  lemma LoadBlock(c: Config, v: View, v1: View, r: nat, bit: nat, slot: Option<nat>, fix: bool, tid: nat, given: Grant)
    requires Inv(c, v1) && KeepsAll(v, v1) && v1 == v.(threads := v1.threads)
    requires 1 <= r < c.BlockCount() && bit < BLOCK_PAGES && SlotOk(v1, slot) && Index(v, r).blockId == 0
    requires CanAlloc(c, v).0.free == [] ==> GrantOk(v, given)
    requires if tid == c.init then slot == None else slot == Some(IndexOf(v1.threads, tid))
    ensures CanAlloc(c, v1).1
    ensures var (w, id) := LockFresh(c, CanAlloc(c, v1).0, r, bit, slot, fix, given);
      Inv(c, w) && KeepsAll(v, w) && Granted(c, w, tid, 8 * r + bit, fix, PageAt(Place(w, id, bit)))
  {
    SameFree(c, v, v1);
    hide Inv, KeepsAll, Granted, LockFresh, CanAlloc, OnlyNew;
    var v2 := CanAlloc(c, v1).0;
    CanAllocTrue(c, v1, r);
    CanAllocKeeps(c, v1);
    LockFreshOk(c, v2, r, bit, slot, fix, given);
    LockFreshKeeps(c, v2, r, bit, slot, fix, given);
    FreshGranted(c, v2, r, bit, slot, fix, tid, given);
    KeepsTrans(v, v1, v2);
    KeepsTrans(v, v2, LockFresh(c, v2, r, bit, slot, fix, given).0);
  }

  // ---- one step ----

  lemma BeforeDefragmentOk(c: Config, v: View)
    requires Inv(c, v)
    ensures Inv(c, BeforeDefragment(c, v)) && KeepsAll(v, BeforeDefragment(c, v))
    ensures BeforeDefragment(c, v).threads == v.threads
  {
    hide Inv, KeepsAll, CanAlloc, Release;
    var (w, ok) := CanAlloc(c, v);
    CanAllocKeeps(c, v);
    if ok && w.free != [] {
      ReleaseKeepsAll(c, w, [], w.free);
      ReleaseZero(c, w, [], w.free);
      KeepsTrans(v, w, BeforeDefragment(c, v));
    }
  }

  /** defragment is invisible through the page table: apart from what it gives back first, every loaded file block
      has the same bytes and the same locks, and only unlocked blocks are elsewhere. */
  lemma DefragmentInvisible(c: Config, v: View, log: seq<Call>, places: map<nat, nat>)
    requires Inv(c, v) && Enabled(c, v, Compact(log, places))
    ensures Inv(c, Defragment(c, v, log, places)) && KeepsAll(v, Defragment(c, v, log, places))
    ensures Relocated(BeforeDefragment(c, v), Defragment(c, v, log, places))
  {
    hide Inv, KeepsAll, BeforeDefragment, Relocated, LogOk, OnlyUnlocked, PlacesOk, MoveAll;
    var w := BeforeDefragment(c, v);
    BeforeDefragmentOk(c, v);
    if w.unlock == [] {
      RelocatedRefl(c, w);
    } else {
      MoveAllOk(c, w, log, places);
      DefragmentKeeps(c, w, log, places);
      KeepsTrans(v, w, Defragment(c, v, log, places));
    }
  }

  lemma FreeUnlockedKeeps(c: Config, v: View, decommit: bool)
    requires Inv(c, v)
    ensures Inv(c, FreeUnlocked(c, v, decommit)) && KeepsAll(v, FreeUnlocked(c, v, decommit))
    ensures FreeUnlocked(c, v, decommit).threads == v.threads
  {
    hide Inv, KeepsAll, Release;
    var w := FreeUnlock(v, c.BlockCount());
    FreeUnlockKeeps(c, v, c.BlockCount());
    ReleaseKeepsAll(c, w, [], w.free);
    ReleaseZero(c, w, [], w.free);
    hide FreeUnlock;
    KeepsTrans(v, w, Release(w, w.free).(free := []));
  }

  lemma AsyncReleaseKeeps(c: Config, v: View, count: nat)
    requires Inv(c, v)
    ensures Inv(c, AsyncRelease(v, count)) && KeepsAll(v, AsyncRelease(v, count))
    ensures AsyncRelease(v, count).threads == v.threads
  {
    hide Inv, KeepsAll, Release;
    var n := if count < |v.free| then |v.free| - count else 0;
    assert v.free == v.free[..n] + v.free[n..];
    ReleaseKeepsAll(c, v, v.free[..n], v.free[n..]);
    ReleaseZero(c, v, v.free[..n], v.free[n..]);
  }

  predicate Unlocks(e: Event) { e.UnlockPage? || e.UnlockAll? }

  /** No step but an unlock takes anything away from a locked or fixed block. */
  lemma StepKeeps(c: Config, v: View, e: Event)
    requires Inv(c, v) && Enabled(c, v, e) && !Unlocks(e)
    ensures Inv(c, Step(c, v, e)) && KeepsAll(v, Step(c, v, e))
  {
    hide Inv, KeepsAll, Lock, FreeUnlocked, CanAlloc, AsyncRelease, Defragment, BeforeDefragment, GrantOk, LogOk;
    match e
    case LockPage(tid, page, fix, given) => LockOk(c, v, tid, page, fix, given);
    case FreeAll(decommit) => FreeUnlockedKeeps(c, v, decommit);
    case ReleaseChoose => CanAllocKeeps(c, v);
    case ReleaseSome(count) => AsyncReleaseKeeps(c, v, count);
    case Compact(log, places) => DefragmentInvisible(c, v, log, places);
  }

  /** An unlock moves nothing, and takes locks of the slot of its own thread only. */
  lemma StepUnlocks(c: Config, v: View, e: Event)
    requires Inv(c, v) && Unlocks(e)
    ensures Inv(c, Step(c, v, e)) && SamePlace(v, Step(c, v, e))
    ensures forall x | x in v.heads :: SameBut(v.heads[x], Step(c, v, e).heads[x], IndexOf(v.threads, e.tid))
    ensures forall x | x in v.heads :: Step(c, v, e).heads[x].fixedBlock == v.heads[x].fixedBlock
  {
    hide Inv, Unlock, UnlockThread, ReleasedExactly, SamePlace, SameBut, Free, HeldOnlyBy;
    ThreadFacts(c, v);
    if e.UnlockPage? {
      UnlockPageExact(c, v, e.tid, e.page);
    } else if e.tid != c.init && IndexOf(v.threads, e.tid) < MAX_THREAD {
      UnlockThreadExact(c, v, e.tid, e.remove);
      ExactIsSame(c, v, UnlockThread(c, v, e.tid, e.remove).0, IndexOf(v.threads, e.tid));
    } else {
      NoUnlock(c, v, e.tid, e.remove);
      RefreshSame(v, IndexOf(v.threads, e.tid));
    }
  }

  lemma ExactIsSame(c: Config, v: View, w: View, k: nat)
    requires SamePlace(v, w) && forall x | x in v.heads :: ReleasedExactly(c, v, w, x, k)
    ensures forall x | x in v.heads :: SameBut(v.heads[x], w.heads[x], k) && w.heads[x].fixedBlock == v.heads[x].fixedBlock
  {
    hide SameBut, Free, HeldOnlyBy;
  }

  lemma NoUnlock(c: Config, v: View, tid: nat, remove: bool)
    requires tid == c.init || IndexOf(v.threads, tid) == |v.threads|
    ensures UnlockThread(c, v, tid, remove).0 == v && SamePlace(v, v)
  {
  }

  lemma StepInv(c: Config, v: View, e: Event)
    requires Inv(c, v) && Enabled(c, v, e)
    ensures Inv(c, Step(c, v, e))
  {
    hide Inv, Step, Enabled, KeepsAll;
    if Unlocks(e) { StepUnlocks(c, v, e); } else { StepKeeps(c, v, e); }
  }

  /** Pin safety: no step of any thread moves, unloads or overwrites a locked or fixed block, or gives its memory
      to another file block; the zero block never changes. */
  lemma StepStays(c: Config, v: View, e: Event, x: nat)
    requires Inv(c, v) && Enabled(c, v, e) && Pin(v, x)
    ensures Stays(v, Step(c, v, e), x)
  {
    hide Inv, Step, Enabled, SameBut;
    if Unlocks(e) {
      StepUnlocks(c, v, e);
      PinFacts(c, v, x);
      SameReal(v.heads[x], Step(c, v, e).heads[x], IndexOf(v.threads, e.tid));
    } else {
      StepKeeps(c, v, e);
      assert Keeps(v, Step(c, v, e), x);
    }
  }

  lemma SameReal(h: BlockLists.BlockHead, g: BlockLists.BlockHead, k: nat)
    requires SameBut(h, g, k)
    ensures g.realBlock == h.realBlock
    ensures forall i: nat, j | j in Bits(h, i) && j != k :: j in Bits(g, i)
  {
  }

  lemma StepZero(c: Config, v: View, e: Event)
    requires Inv(c, v) && Enabled(c, v, e)
    ensures SameZero(v, Step(c, v, e))
  {
    hide Inv, Step, Enabled, SameBut, Keeps;
    ZeroSame(c, v);
    if Unlocks(e) { StepUnlocks(c, v, e); } else { StepKeeps(c, v, e); }
  }

  // ---- the thread that holds a page ----

  /** Thread tid has a slot, and the mask of the page has the bit of that slot. */
  ghost predicate Holds(c: Config, v: View, tid: nat, page: nat) {
    var x := Index(v, page / 8).blockId;
    && 1 <= page / 8 < c.BlockCount() && x in v.heads && x != 0
    && tid != c.init && IndexOf(v.threads, tid) < |v.threads| && IndexOf(v.threads, tid) in Bits(v.heads[x], page % 8)
  }

  /** The events by which a thread gives up a page. */
  predicate GivesUp(e: Event, tid: nat, page: nat) {
    (e.UnlockPage? && e.tid == tid && e.page == page) || (e.UnlockAll? && e.tid == tid)
  }

  lemma HoldsPinned(c: Config, v: View, tid: nat, page: nat)
    requires Inv(c, v) && Holds(c, v, tid, page)
    ensures Pin(v, Index(v, page / 8).blockId)
  {
    hide Inv, Partition, ThreadsOk, BlockOk;
    BlockFacts(c, v, page / 8);
    StillPinned(c, v, Index(v, page / 8).blockId, page / 8);
  }

  ghost predicate SlotsStay(s: seq<Slot>, t: seq<Slot>) {
    |t| == |s| && DistinctIds(t) && forall k | 0 <= k < |s| && s[k].Thread? :: t[k].Thread? && t[k].id == s[k].id
  }

  lemma SlotStays(s: seq<Slot>, t: seq<Slot>, tid: nat)
    requires |t| == |s| && DistinctIds(t) && IndexOf(s, tid) < |s|
    requires t[IndexOf(s, tid)].Thread? && t[IndexOf(s, tid)].id == tid
    ensures IndexOf(t, tid) == IndexOf(s, tid)
  {
  }

  lemma LockSlots(c: Config, v: View, tid: nat, page: nat, fix: bool, given: Grant)
    requires Inv(c, v) && (NeedsGrant(c, v, tid, page) ==> GrantOk(v, given))
    ensures SlotsStay(v.threads, Lock(c, v, tid, page, fix, given).0.threads)
  {
    hide Inv, LockLoaded, LockFresh, CanAlloc, GrantOk, Inserted, InsertedAt, Granted, KeepsAll;
    var r, bit := page / 8, page % 8;
    var w := Lock(c, v, tid, page, fix, given).0;
    LockOk(c, v, tid, page, fix, given);
    ThreadFacts(c, v);
    ThreadFacts(c, w);
    InsertKeeps(v.threads, tid);
    if 1 <= r < c.BlockCount() && (tid == c.init || InsertedAt(v.threads, tid).Some?) {
      var v1, slot := WithThread(c, v, tid), SlotOf(c, v, tid);
      WithThreadOk(c, v, tid);
      CanAllocKeeps(c, v1);
      LoadedIds(v1, r, bit, slot, fix);
      FreshIds(c, CanAlloc(c, v1).0, r, bit, slot, fix, given);
    }
  }

  lemma StepSlots(c: Config, v: View, e: Event)
    requires Inv(c, v) && Enabled(c, v, e) && !e.UnlockAll?
    ensures SlotsStay(v.threads, Step(c, v, e).threads)
  {
    hide Inv, Lock, Unlock, FreeUnlocked, CanAlloc, AsyncRelease, BeforeDefragment, GrantOk, LogOk, KeepsAll, MoveAll, OnlyUnlocked, PlacesOk,
      SamePlace, SameBut;
    ThreadFacts(c, v);
    match e
    case LockPage(tid, page, fix, given) => LockSlots(c, v, tid, page, fix, given);
    case UnlockPage(tid, page) =>
      UnlockPageExact(c, v, tid, page);
      ThreadFacts(c, Unlock(c, v, tid, page).0);
    case FreeAll(decommit) => FreeUnlockedKeeps(c, v, decommit);
    case ReleaseChoose => CanAllocKeeps(c, v);
    case ReleaseSome(count) => AsyncReleaseKeeps(c, v, count);
    case Compact(log, places) =>
      BeforeDefragmentOk(c, v);
      DefragmentInvisible(c, v, log, places);
    case _ =>
  }

  /** A thread that holds a page holds it until it gives it up itself, whatever the others do. */
  lemma StepHolds(c: Config, v: View, e: Event, tid: nat, page: nat)
    requires Inv(c, v) && Enabled(c, v, e) && Holds(c, v, tid, page) && !GivesUp(e, tid, page)
    ensures Holds(c, Step(c, v, e), tid, page)
  {
    hide Inv, Step, Enabled, SameBut;
    var w, x, k := Step(c, v, e), Index(v, page / 8).blockId, IndexOf(v.threads, tid);
    HoldsPinned(c, v, tid, page);
    PinFacts(c, v, x);
    BlockFacts(c, v, page / 8);
    StepStays(c, v, e, x);
    StepSlot(c, v, e, tid, page);
    if Unlocks(e) {
      StepUnlocks(c, v, e);
      if e.tid != tid {
        SameReal(v.heads[x], w.heads[x], IndexOf(v.threads, e.tid));
      } else {
        OtherPage(c, v, e, tid, page);
      }
    } else {
      StepKeeps(c, v, e);
      assert Keeps(v, w, x);
    }
  }

  lemma StepSlot(c: Config, v: View, e: Event, tid: nat, page: nat)
    requires Inv(c, v) && Enabled(c, v, e) && Holds(c, v, tid, page) && !GivesUp(e, tid, page)
    ensures IndexOf(Step(c, v, e).threads, tid) == IndexOf(v.threads, tid) < |Step(c, v, e).threads|
  {
    hide Inv, SamePlace, SameBut, ReleasedExactly, UnlockThread, Lock, Unlock, FreeUnlocked, AsyncChoose, AsyncRelease, Defragment, Enabled;
    var w := Step(c, v, e);
    StepInv(c, v, e);
    ThreadFacts(c, v);
    ThreadFacts(c, w);
    if e.UnlockAll? {
      if e.tid != c.init && IndexOf(v.threads, e.tid) < MAX_THREAD {
        UnlockThreadExact(c, v, e.tid, e.remove);
      } else {
        NoUnlock(c, v, e.tid, e.remove);
      }
    } else {
      StepSlots(c, v, e);
    }
    SlotStays(v.threads, w.threads, tid);
  }

  /** unlock_page of a page leaves the locks on other pages. */
  lemma OtherPage(c: Config, v: View, e: Event, tid: nat, page: nat)
    requires Inv(c, v) && Holds(c, v, tid, page) && e.UnlockPage? && e.tid == tid && e.page != page
    requires v.heads[Index(v, page / 8).blockId].realBlock == page / 8 && Index(v, page / 8).blockId in Step(c, v, e).heads
    ensures IndexOf(v.threads, tid) in Bits(Step(c, v, e).heads[Index(v, page / 8).blockId], page % 8)
  {
    hide Inv, Unlock, SamePlace, SameBut;
    UnlockPageExact(c, v, tid, e.page);
  }
}
