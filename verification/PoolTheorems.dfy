/** What holds over every run of the buffer pool, from the state its constructor leaves. */
module PoolTheorems {
  import opened Wrappers
  import opened Sequences
  import opened Arenas
  import Threads
  import opened PoolModel
  import opened PoolInvariant
  import PoolUnlocking
  import opened PoolMemory
  import opened PoolSafety
  import opened PoolRuns

  /** The state after the events, in order. */
  function Run(c: Config, v: View, es: seq<Event>): View {
    if es == [] then v else Step(c, Run(c, v, es[..|es| - 1]), es[|es| - 1])
  }

  ghost predicate RunOk(c: Config, v: View, es: seq<Event>) {
    es == [] || (RunOk(c, v, es[..|es| - 1]) && Enabled(c, Run(c, v, es[..|es| - 1]), es[|es| - 1]))
  }

  /** The pool after its constructor: load_zero_block has read file block 0 into pool block 0. */
  function Start(c: Config, adr: nat, bytes: Block): View {
    View(seq(c.BlockCount(), (r: nat) => if r == 0 then BlockIndex(0, {0, 1, 2, 3, 4, 5, 6, 7}) else BlockIndex(0, {})),
         map[], [], [], [], [], seq(Threads.MAX_THREAD, (k: nat) => Threads.NoThread),
         map[0 := adr], map[0 := ReadBlock(c, bytes, 0)])
  }

  lemma StartOk(c: Config, adr: nat, bytes: Block)
    requires c.Valid() && adr != 0
    ensures Inv(c, Start(c, adr, bytes))
  {
    hide ReadBlock, Shows;
    var v := Start(c, adr, bytes);
    ReadShows(c, bytes, 0);
    forall r: nat | 1 <= r < |v.table| ensures BlockOk(c, v, r) {}
    assert v.data.Keys == {0} == v.adr.Keys;
    assert Partition(v);
  }

  /** Every reachable state meets the invariant. */
  lemma {:induction false} RunInv(c: Config, v: View, es: seq<Event>)
    requires Inv(c, v) && RunOk(c, v, es)
    ensures Inv(c, Run(c, v, es))
  {
    hide Inv, Step, Enabled;
    if es != [] {
      RunInv(c, v, es[..|es| - 1]);
      StepInv(c, Run(c, v, es[..|es| - 1]), es[|es| - 1]);
    }
  }

  lemma StaysTrans(u: View, v: View, w: View, x: nat)
    requires Stays(u, v, x) && Stays(v, w, x)
    ensures Stays(u, w, x)
  {
  }

  /** A page that a thread holds stays held, at the same address and with the same bytes, through any number of steps
      of all threads, as long as this thread does not give it up. */
  lemma {:induction false} RunHolds(c: Config, v: View, es: seq<Event>, tid: nat, page: nat)
    requires Inv(c, v) && RunOk(c, v, es) && Holds(c, v, tid, page)
    requires forall k | 0 <= k < |es| :: !GivesUp(es[k], tid, page)
    ensures Inv(c, Run(c, v, es)) && Holds(c, Run(c, v, es), tid, page)
    ensures Stays(v, Run(c, v, es), Index(v, page / 8).blockId)
  {
    hide Inv, Step, Enabled, Holds, Stays, GivesUp;
    var x := Index(v, page / 8).blockId;
    HeldBlock(c, v, tid, page);
    if es == [] {
      StaysRefl(c, v, x);
    } else {
      var prev, e := es[..|es| - 1], es[|es| - 1];
      assert forall k | 0 <= k < |prev| :: prev[k] == es[k];
      var u := Run(c, v, prev);
      RunHolds(c, v, prev, tid, page);
      SameBlock(c, v, u, x, page);
      HoldsPinned(c, u, tid, page);
      StepInv(c, u, e);
      StepStays(c, u, e, x);
      StepHolds(c, u, e, tid, page);
      StaysTrans(v, u, Run(c, v, es), x);
    }
  }

  lemma HeldBlock(c: Config, v: View, tid: nat, page: nat)
    requires Inv(c, v) && Holds(c, v, tid, page)
    ensures Pin(v, Index(v, page / 8).blockId) && Index(v, page / 8).blockId in v.heads
    ensures v.heads[Index(v, page / 8).blockId].realBlock == page / 8
  {
    hide Inv, Partition, ThreadsOk, BlockOk, IdOk;
    HoldsPinned(c, v, tid, page);
    BlockFacts(c, v, page / 8);
  }

  lemma StaysRefl(c: Config, v: View, x: nat)
    requires Inv(c, v) && Pin(v, x)
    ensures Stays(v, v, x)
  {
    hide Inv;
    PinFacts(c, v, x);
  }

  lemma SameBlock(c: Config, v: View, u: View, x: nat, page: nat)
    requires Stays(v, u, x) && x in v.heads && v.heads[x].realBlock == page / 8 && x == Index(v, page / 8).blockId
    ensures Index(u, page / 8).blockId == x
  {
  }

  /** File block r is in a fixed pool block. */
  ghost predicate IsFixed(v: View, r: nat) {
    var x := Index(v, r).blockId;
    x != 0 && x in v.heads && v.heads[x].fixedBlock
  }

  lemma FixedBlock(c: Config, v: View, r: nat)
    requires Inv(c, v) && 1 <= r < c.BlockCount() && IsFixed(v, r)
    ensures Pin(v, Index(v, r).blockId) && v.heads[Index(v, r).blockId].realBlock == r
  {
    hide Inv, Partition, ThreadsOk, BlockOk;
    BlockFacts(c, v, r);
  }

  /** A fixed block is never moved, unloaded or overwritten, by any run. */
  lemma {:induction false} RunFixed(c: Config, v: View, es: seq<Event>, r: nat)
    requires Inv(c, v) && RunOk(c, v, es) && 1 <= r < c.BlockCount() && IsFixed(v, r)
    ensures Inv(c, Run(c, v, es)) && IsFixed(Run(c, v, es), r) && Stays(v, Run(c, v, es), Index(v, r).blockId)
  {
    hide Inv, Step, Enabled;
    var x := Index(v, r).blockId;
    FixedBlock(c, v, r);
    if es == [] {
      StaysRefl(c, v, x);
    } else {
      var prev, e := es[..|es| - 1], es[|es| - 1];
      var u := Run(c, v, prev);
      RunFixed(c, v, prev, r);
      FixedBlock(c, u, r);
      StepInv(c, u, e);
      StepStays(c, u, e, x);
    }
  }

  lemma {:induction false} RunZero(c: Config, v: View, es: seq<Event>)
    requires Inv(c, v) && RunOk(c, v, es)
    ensures Inv(c, Run(c, v, es)) && SameZero(v, Run(c, v, es))
  {
    hide Inv, Step, Enabled;
    if es == [] {
      ZeroSame(c, v);
    } else {
      var u := Run(c, v, es[..|es| - 1]);
      RunZero(c, v, es[..|es| - 1]);
      StepInv(c, u, es[|es| - 1]);
      StepZero(c, u, es[|es| - 1]);
    }
  }

  /** Address a is where the state has the page, and it shows what the file has there, if it has the page. */
  ghost predicate ShowsAt(c: Config, v: View, page: nat, a: nat) {
    var x := Index(v, page / 8).blockId;
    && x in v.adr && a == v.adr[x] + PAGE_SIZE * (page % 8)
    && x in v.data && |v.data[x]| == BLOCK_PAGES && (page < |c.file| ==> v.data[x][page % 8] == c.file[page])
  }

  /** The bytes of the page. */
  ghost function BytesOf(v: View, page: nat): Page {
    var x := Index(v, page / 8).blockId;
    if x in v.data && |v.data[x]| == BLOCK_PAGES then v.data[x][page % 8] else ZeroPage()
  }

  /** The promise of lock_page_fixed: the address it returns shows the page of the file, and goes on showing it
      whatever happens, for ever if the page was asked to be fixed, else until the thread gives it up. A page behind
      the end of the file keeps its address and its bytes as well. */
  lemma LockedPageStays(c: Config, v: View, tid: nat, page: nat, fix: bool, given: Grant, es: seq<Event>, a: nat)
    requires Inv(c, v) && (NeedsGrant(c, v, tid, page) ==> GrantOk(v, given))
    requires Lock(c, v, tid, page, fix, given).1 == PageAt(a)
    requires RunOk(c, Lock(c, v, tid, page, fix, given).0, es)
    requires fix || tid == c.init || forall k | 0 <= k < |es| :: !GivesUp(es[k], tid, page)
    ensures ShowsAt(c, Lock(c, v, tid, page, fix, given).0, page, a)
    ensures ShowsAt(c, Run(c, Lock(c, v, tid, page, fix, given).0, es), page, a)
    ensures BytesOf(Run(c, Lock(c, v, tid, page, fix, given).0, es), page) == BytesOf(Lock(c, v, tid, page, fix, given).0, page)
  {
    hide Inv, KeepsAll, GrantOk, Run, RunOk, Lock;
    var w := Lock(c, v, tid, page, fix, given).0;
    LockOk(c, v, tid, page, fix, given);
    if page < 8 {
      RunZero(c, w, es);
      ZeroShows(c, w, page, a);
      ZeroShows(c, Run(c, w, es), page, a);
      ZeroBytes(c, w, Run(c, w, es), page);
    } else {
      var r := page / 8;
      var x := Index(w, r).blockId;
      IdFacts(c, w, x);
      if w.heads[x].fixedBlock {
        RunFixed(c, w, es, r);
        FixedBlock(c, w, r);
      } else {
        GrantedSlot(c, w, tid, page, fix, Lock(c, v, tid, page, fix, given).1);
        RunHolds(c, w, es, tid, page);
        HeldBlock(c, w, tid, page);
      }
    }
  }

  lemma GrantedSlot(c: Config, w: View, tid: nat, page: nat, fix: bool, res: Result)
    requires Inv(c, w) && Granted(c, w, tid, page, fix, res) && 8 <= page && !w.heads[Index(w, page / 8).blockId].fixedBlock
    ensures Holds(c, w, tid, page)
  {
    hide Inv, Partition, ThreadsOk, BlockOk;
    var x := Index(w, page / 8).blockId;
    IdFacts(c, w, x);
    BlockFacts(c, w, page / 8);
  }

  lemma ZeroBytes(c: Config, v: View, w: View, page: nat)
    requires Inv(c, v) && Inv(c, w) && SameZero(v, w) && page < 8
    ensures BytesOf(w, page) == BytesOf(v, page)
  {
  }

  lemma ZeroShows(c: Config, v: View, page: nat, a: nat)
    requires Inv(c, v) && page < 8 && 0 in v.adr && a == v.adr[0] + PAGE_SIZE * page
    ensures ShowsAt(c, v, page, a)
  {
  }

  /** No pool block leaks: the blocks taken from the allocator are the zero block and those on the four lists,
      and they are never more than the file has blocks. */
  lemma UsedBlocks(c: Config, v: View)
    requires Inv(c, v)
    ensures |v.adr| == 1 + |v.lock| + |v.unlock| + |v.free| + |v.fixed| <= c.BlockCount()
  {
    hide IdOk, BlockOk, ThreadsOk, Shows, Disjoint;
    FourLists(v);
    assert v.adr.Keys == v.heads.Keys + {0};
  }

  lemma FourLists(v: View)
    requires Partition(v)
    ensures |v.heads.Keys| == |v.lock| + |v.unlock| + |v.free| + |v.fixed|
  {
    ElemsCard(v.lock);
    ElemsCard(v.unlock);
    ElemsCard(v.free);
    ElemsCard(v.fixed);
    assert v.heads.Keys == Elems(v.lock) + Elems(v.unlock) + (Elems(v.free) + Elems(v.fixed));
    hide Distinct;
    assert Elems(v.lock) !! Elems(v.unlock);
    assert Elems(v.free) !! Elems(v.fixed);
    assert (Elems(v.lock) + Elems(v.unlock)) !! (Elems(v.free) + Elems(v.fixed));
    hide *;
  }

  /** A movable block has a lock on a page behind the end of the file. */
  ghost predicate LockedBehind(c: Config, v: View) {
    exists x :: x in v.lock && HasBehind(c, v, x)
  }

  ghost predicate HasBehind(c: Config, v: View, x: nat) {
    var r := Head(v, x).realBlock;
    exists i :: i in Index(v, r).pageLock && c.PageCount(r) <= i
  }

  /** Without a thread in the table free_unlocked gives back everything but the zero block, the fixed blocks and those that
      are still locked, and these are there only if a page behind the end of the file was locked. */
  lemma NothingLeaks(c: Config, v: View)
    requires Inv(c, v) && forall k | 0 <= k < |v.threads| :: v.threads[k].NoThread?
    ensures FreeUnlocked(c, v, true).unlock == [] && FreeUnlocked(c, v, true).free == []
    ensures |FreeUnlocked(c, v, true).adr| == 1 + |v.lock| + |v.fixed|
    ensures v.lock == [] <==> !LockedBehind(c, v)
  {
    hide Inv, KeepsAll, Release, FreeUnlock, Partition, LockedBehind;
    NoLocks(c, v);
    UsedBlocks(c, v);
    var w := FreeUnlock(v, c.BlockCount());
    FreedAll(c, v);
    FreeUnlockKeeps(c, v, c.BlockCount());
    ReleaseZero(c, w, [], w.free);
    FreeUnlockedKeeps(c, v, true);
    UsedBlocks(c, FreeUnlocked(c, v, true));
  }

  lemma NoLocks(c: Config, v: View)
    requires Inv(c, v) && forall k | 0 <= k < |v.threads| :: v.threads[k].NoThread?
    ensures v.lock == [] <==> !LockedBehind(c, v)
  {
    assert forall k: nat :: BlocksOf(v.threads, k) == {};
    if v.lock != [] {
      var x := v.lock[0];
      assert x in v.lock;
      IdFacts(c, v, x);
      BlockFacts(c, v, v.heads[x].realBlock);
      var i :| i in Index(v, v.heads[x].realBlock).pageLock;
      assert Bits(v.heads[x], i) != {};
      var k :| k in Bits(v.heads[x], i);
      PoolUnlocking.Covered(c, v, x, k);
      assert HasBehind(c, v, x);
    }
  }

  lemma FreedAll(c: Config, v: View)
    requires Inv(c, v)
    ensures FreeUnlock(v, c.BlockCount()).unlock == [] && c.BlockCount() > 0
    ensures FreeUnlock(v, c.BlockCount()).fixed == v.fixed && FreeUnlock(v, c.BlockCount()).lock == v.lock
  {
    UsedBlocks(c, v);
  }

  /** At or above its limit the pool takes fresh memory only if it has no free block and nothing to evict. */
  lemma OverLimit(c: Config, v: View, tid: nat, page: nat, fix: bool, given: Grant)
    requires Inv(c, v) && (NeedsGrant(c, v, tid, page) ==> GrantOk(v, given))
    requires c.maxPool < c.FileSize() && c.maxPool <= UsedSize(v)
    requires Lock(c, v, tid, page, fix, given).0.adr != v.adr
    ensures v.free == [] && v.unlock == []
  {
    hide Inv, KeepsAll, Granted, LockLoaded, LockFresh, OnlyBlock, OnlyNew, FreeUnlock, Threads.Inserted, Threads.InsertedAt;
    var r, bit := page / 8, page % 8;
    LockOk(c, v, tid, page, fix, given);
    if 1 <= r < c.BlockCount() && (tid == c.init || Threads.InsertedAt(v.threads, tid).Some?) {
      WithThreadOk(c, v, tid);
      var v1, slot := WithThread(c, v, tid), SlotOf(c, v, tid);
      if Index(v, r).blockId != 0 {
        LoadedAdr(v1, r, bit, slot, fix);
      } else {
        var v2 := CanAlloc(c, v1).0;
        CanAllocKeeps(c, v1);
        SameFree(c, v, v1);
        LockFreshOk(c, v2, r, bit, slot, fix, given);
        if v.unlock != [] { EvictSome(v1, FreePoolBlock(c, UsedSize(v1))); }
      }
    }
  }

  lemma LoadedAdr(v: View, r: nat, bit: nat, slot: Option<nat>, fix: bool)
    ensures LockLoaded(v, r, bit, slot, fix).adr == v.adr
  {
  }

  lemma EvictSome(v: View, count: nat)
    requires v.unlock != [] && count > 0
    ensures FreeUnlock(v, count).free != []
  {
  }
}
