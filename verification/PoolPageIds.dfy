/** Page ids behind the end of the file. lock_page_fixed checks only that the file has the block of the page, but
    unlock_thread visits only the pages that the last block has: a lock on a page behind them is never given back.
    Without such locks the release of a thread is complete. */
module PoolPageIds {
  import opened Wrappers
  import opened Arenas
  import Moves
  import opened Threads
  import BlockLists
  import opened PoolModel
  import opened PoolInvariant
  import PoolLocking
  import opened PoolUnlocking
  import opened PoolMemory
  import PoolSafety
  import opened PoolRuns
  import opened PoolTheorems

  /** Every locked page is one that the file has. */
  ghost predicate InFile(c: Config, v: View) {
    forall r: nat, i | i in Index(v, r).pageLock :: i < c.PageCount(r)
  }

  /** The caller asks for a page of the file, or for one of a block that the file does not have. */
  predicate AsksPage(c: Config, e: Event) {
    e.LockPage? ==> e.page < |c.file| || c.BlockCount() <= e.page / 8
  }

  // ---- no call but lock_page_fixed locks a page ----

  ghost predicate Shrinks(v: View, w: View) {
    forall r: nat :: Index(w, r).pageLock <= Index(v, r).pageLock
  }

  lemma ShrinksTrans(u: View, v: View, w: View)
    requires Shrinks(u, v) && Shrinks(v, w)
    ensures Shrinks(u, w)
  {
    forall r: nat ensures Index(w, r).pageLock <= Index(u, r).pageLock {
      assert Index(w, r).pageLock <= Index(v, r).pageLock <= Index(u, r).pageLock;
    }
  }

  lemma UnlockHeadShrinks(v: View, r: nat, bit: nat, k: nat)
    ensures Shrinks(v, UnlockHead(v, r, bit, k).0)
  {
  }

  lemma UnlockShrinks(c: Config, v: View, tid: nat, page: nat)
    ensures Shrinks(v, Unlock(c, v, tid, page).0)
  {
    hide UnlockHead, HoldsPage, IndexOf;
    UnlockHeadShrinks(v, page / 8, page % 8, IndexOf(v.threads, tid));
  }

  lemma {:induction false} UnlockBlockShrinks(c: Config, v: View, k: nat, r: nat, i: nat)
    ensures Shrinks(v, ThreadUnlockBlock(c, v, k, r, i).0)
    decreases c.PageCount(r) - i
  {
    if i < c.PageCount(r) {
      var (w, done) := ThreadUnlockPage(v, k, r, i);
      UnlockHeadShrinks(v, r, i, k);
      if !done {
        UnlockBlockShrinks(c, w, k, r, i + 1);
        hide UnlockHead, ThreadUnlockBlock;
        ShrinksTrans(v, w, ThreadUnlockBlock(c, w, k, r, i + 1).0);
      }
    }
  }

  lemma {:induction false} UnlockBlocksShrink(c: Config, v: View, k: nat, mask: set<nat>, n: nat)
    ensures Shrinks(v, ThreadUnlockBlocks(c, v, k, mask, n).0)
  {
    hide ThreadUnlockBlock, Shrinks;
    if n == 0 {
      assert Shrinks(v, v) by { SameShrinks(v, v); }
    } else {
      var w := ThreadUnlockBlocks(c, v, k, mask, n - 1).0;
      UnlockBlocksShrink(c, v, k, mask, n - 1);
      UnlockBlockShrinks(c, w, k, n - 1, 0);
      ShrinksTrans(v, w, ThreadUnlockBlock(c, w, k, n - 1, 0).0);
    }
  }

  lemma SameShrinks(v: View, w: View)
    requires w.table == v.table
    ensures Shrinks(v, w)
  {
  }

  lemma UnlockThreadShrinks(c: Config, v: View, tid: nat, remove: bool)
    ensures Shrinks(v, UnlockThread(c, v, tid, remove).0)
  {
    hide Shrinks, ThreadUnlockBlocks;
    var k := IndexOf(v.threads, tid);
    var w := ThreadUnlockBlocks(c, v, k, BlocksOf(v.threads, k), c.BlockCount()).0;
    UnlockBlocksShrink(c, v, k, BlocksOf(v.threads, k), c.BlockCount());
    SameShrinks(v, v);
    if tid != c.init && k < |v.threads| {
      SameShrinks(w, UnlockThread(c, v, tid, remove).0);
      ShrinksTrans(v, w, UnlockThread(c, v, tid, remove).0);
    }
  }

  lemma FreeUnlockShrinks(v: View, count: nat)
    ensures Shrinks(v, FreeUnlock(v, count))
  {
  }

  lemma CanAllocShrinks(c: Config, v: View)
    ensures Shrinks(v, CanAlloc(c, v).0)
  {
    hide FreeUnlock, Shrinks;
    FreeUnlockShrinks(v, FreePoolBlock(c, UsedSize(v)));
    SameShrinks(v, v);
  }

  lemma MoveShrinks(v: View, from: nat, to: nat, place: nat)
    ensures Shrinks(v, MoveUnlocked(v, from, to, place))
  {
  }

  lemma {:induction false} MoveAllShrinks(v: View, log: seq<Moves.Call>, places: map<nat, nat>)
    ensures Shrinks(v, MoveAll(v, log, places))
  {
    hide Shrinks, MoveUnlocked;
    SameShrinks(v, v);
    if log != [] {
      var w, e := MoveAll(v, log[..|log| - 1], places), log[|log| - 1];
      MoveAllShrinks(v, log[..|log| - 1], places);
      var place := if e.to in places then places[e.to] else 0;
      MoveShrinks(w, e.from, e.to, place);
      ShrinksTrans(v, w, MoveUnlocked(w, e.from, e.to, place));
    }
  }

  lemma DefragmentShrinks(c: Config, v: View, log: seq<Moves.Call>, places: map<nat, nat>)
    ensures Shrinks(v, Defragment(c, v, log, places))
  {
    hide Shrinks, MoveAll, CanAlloc;
    var w := BeforeDefragment(c, v);
    CanAllocShrinks(c, v);
    SameShrinks(CanAlloc(c, v).0, w);
    ShrinksTrans(v, CanAlloc(c, v).0, w);
    MoveAllShrinks(w, log, places);
    ShrinksTrans(v, w, MoveAll(w, log, places));
  }

  lemma StepShrinks(c: Config, v: View, e: Event)
    requires !e.LockPage?
    ensures Shrinks(v, Step(c, v, e))
  {
    hide Shrinks, Unlock, UnlockThread, FreeUnlock, CanAlloc, Defragment;
    match e
    case UnlockPage(tid, page) => UnlockShrinks(c, v, tid, page);
    case UnlockAll(tid, remove) => UnlockThreadShrinks(c, v, tid, remove);
    case FreeAll(decommit) =>
      var w := FreeUnlock(v, c.BlockCount());
      FreeUnlockShrinks(v, c.BlockCount());
      SameShrinks(w, FreeUnlocked(c, v, decommit));
      ShrinksTrans(v, w, FreeUnlocked(c, v, decommit));
    case ReleaseChoose => CanAllocShrinks(c, v);
    case ReleaseSome(count) => SameShrinks(v, AsyncRelease(v, count));
    case Compact(log, places) => DefragmentShrinks(c, v, log, places);
  }

  // ---- runs that ask for pages of the file ----

  /** lock_page_fixed locks one page, and no other. */
  lemma LockAdds(c: Config, v: View, tid: nat, page: nat, fix: bool, given: Grant)
    ensures forall r: nat, i | i in Index(Lock(c, v, tid, page, fix, given).0, r).pageLock ::
              i in Index(v, r).pageLock || (r == page / 8 < c.BlockCount() && i == page % 8)
  {
    hide CanAlloc, Inserted, InsertedAt, ReadBlock;
    var r, bit := page / 8, page % 8;
    var v1, slot := WithThread(c, v, tid), SlotOf(c, v, tid);
    LoadedAdds(v1, r, bit, slot, fix);
    CanAllocShrinks(c, v1);
    FreshAdds(c, CanAlloc(c, v1).0, r, bit, slot, fix, given);
    hide LockLoaded, LockFresh;
  }

  lemma LoadedAdds(v: View, r: nat, bit: nat, slot: Option<nat>, fix: bool)
    ensures forall b: nat, i | i in Index(LockLoaded(v, r, bit, slot, fix), b).pageLock ::
              i in Index(v, b).pageLock || (b == r && i == bit)
  {
  }

  lemma FreshAdds(c: Config, v: View, r: nat, bit: nat, slot: Option<nat>, fix: bool, given: Grant)
    ensures forall b: nat, i | i in Index(LockFresh(c, v, r, bit, slot, fix, given).0, b).pageLock ::
              i in Index(v, b).pageLock || (b == r && i == bit)
  {
    hide ReadBlock;
  }

  lemma StepInFile(c: Config, v: View, e: Event)
    requires InFile(c, v) && AsksPage(c, e)
    ensures InFile(c, Step(c, v, e))
  {
    if e.LockPage? {
      hide Lock, Config.PageCount, Config.BlockCount;
      LockAdds(c, v, e.tid, e.page, e.fix, e.given);
      if e.page < |c.file| { PageInBlock(c, e.page); }
    } else {
      StepShrinks(c, v, e);
      hide Step;
    }
  }

  /** If all callers ask for pages of the file no other page is ever locked. */
  lemma {:induction false} RunInFile(c: Config, v: View, es: seq<Event>)
    requires InFile(c, v) && forall k | 0 <= k < |es| :: AsksPage(c, es[k])
    ensures InFile(c, Run(c, v, es))
  {
    hide Step, InFile, AsksPage;
    if es != [] {
      RunInFile(c, v, es[..|es| - 1]);
      StepInFile(c, Run(c, v, es[..|es| - 1]), es[|es| - 1]);
    }
  }

  lemma StartInFile(c: Config, adr: nat, bytes: Block)
    requires c.Valid()
    ensures InFile(c, Start(c, adr, bytes))
  {
    hide ReadBlock;
  }

  /** From the start, in every run in which all callers do so, the pool is in order and only pages of the file are locked. */
  lemma StartRunInFile(c: Config, adr: nat, bytes: Block, es: seq<Event>)
    requires c.Valid() && adr != 0 && RunOk(c, Start(c, adr, bytes), es) && forall k | 0 <= k < |es| :: AsksPage(c, es[k])
    ensures Inv(c, Run(c, Start(c, adr, bytes), es)) && InFile(c, Run(c, Start(c, adr, bytes), es))
  {
    hide Inv, InFile, Start, Run, RunOk, AsksPage;
    StartOk(c, adr, bytes);
    StartInFile(c, adr, bytes);
    RunInv(c, Start(c, adr, bytes), es);
    RunInFile(c, Start(c, adr, bytes), es);
  }

  /** Then unlock_thread leaves no movable page locked by the thread, and unlocks exactly the blocks that only it held. */
  lemma ThreadGone(c: Config, v: View, tid: nat, remove: bool, x: nat)
    requires Inv(c, v) && InFile(c, v) && tid != c.init && IndexOf(v.threads, tid) < MAX_THREAD
    requires x in v.heads && x !in v.free && !v.heads[x].fixedBlock
    ensures var w, k := UnlockThread(c, v, tid, remove).0, IndexOf(v.threads, tid);
      && x in w.heads && (forall i: nat :: Bits(w.heads[x], i) == Bits(v.heads[x], i) - {k})
      && (x in w.unlock <==> forall i: nat :: Bits(v.heads[x], i) <= {k})
  {
    hide Inv, UnlockThread, Free, SameBehind, SameBut;
    var w, k := UnlockThread(c, v, tid, remove).0, IndexOf(v.threads, tid);
    UnlockThreadExact(c, v, tid, remove);
    assert ReleasedExactly(c, v, w, x, k);
    forall i: nat
      ensures Bits(w.heads[x], i) == Bits(v.heads[x], i) - {k}
      ensures c.PageCount(v.heads[x].realBlock) <= i ==> Bits(v.heads[x], i) == {}
    {
      NothingBehind(c, v, x, i);
      ReleasedBits(c, v.heads[x], w.heads[x], k, i);
    }
    AllOrBehind(c, v.heads[x], k);
  }

  lemma AllOrBehind(c: Config, h: BlockLists.BlockHead, k: nat)
    requires forall i: nat | c.PageCount(h.realBlock) <= i :: Bits(h, i) == {}
    ensures HeldOnlyBy(c, h, k) <==> forall i: nat :: Bits(h, i) <= {k}
  {
  }

  lemma ReleasedBits(c: Config, h: BlockLists.BlockHead, g: BlockLists.BlockHead, k: nat, i: nat)
    requires SameBut(h, g, k) && SameBehind(c, h, g) && Free(c, g, k)
    ensures Bits(g, i) == if i < c.PageCount(h.realBlock) then Bits(h, i) - {k} else Bits(h, i)
  {
  }

  lemma NothingBehind(c: Config, v: View, x: nat, i: nat)
    requires Inv(c, v) && InFile(c, v) && x in v.heads && x !in v.free && !v.heads[x].fixedBlock
    ensures c.PageCount(v.heads[x].realBlock) <= i ==> Bits(v.heads[x], i) == {}
  {
    IdFacts(c, v, x);
    if i !in Index(v, v.heads[x].realBlock).pageLock { NotLocked(c, v, x, v.heads[x].realBlock, i); }
  }

  /** And a slot without a thread has no bit on any movable block. */
  lemma EmptySlotHoldsNothing(c: Config, v: View, x: nat, k: nat, i: nat)
    requires Inv(c, v) && InFile(c, v) && k < |v.threads| && v.threads[k].NoThread?
    requires x in v.heads && x !in v.free && !v.heads[x].fixedBlock
    ensures k !in Bits(v.heads[x], i)
  {
    hide Inv;
    EmptySlotIsFree(c, v, x, k);
    NothingBehind(c, v, x, i);
  }

  // ---- a page behind the end ----

  /** Does the thread in slot k lock page bit of file block r? */
  predicate Locks(v: View, r: nat, bit: nat, k: nat) {
    && Index(v, r).blockId != 0 && bit in Index(v, r).pageLock
    && k in Bits(Head(v, Index(v, r).blockId), bit)
  }

  /** After lock_page_fixed and unlock_thread by the same thread the page of a movable block is still locked by the slot
      of this thread, whether the thread left the table or not, exactly if the file does not have this page. */
  lemma GivenBackIff(c: Config, v: View, tid: nat, page: nat, given: Grant, remove: bool)
    requires Inv(c, v) && 1 <= page / 8 < c.BlockCount() && tid != c.init && InsertedAt(v.threads, tid).Some?
    requires NeedsGrant(c, v, tid, page) ==> GrantOk(v, given)
    requires !IsFixed(v, page / 8)
    ensures var w := Lock(c, v, tid, page, false, given).0;
      Locks(UnlockThread(c, w, tid, remove).0, page / 8, page % 8, IndexOf(w.threads, tid)) <==> |c.file| <= page
  {
    hide Inv, PoolSafety.KeepsAll, Lock, UnlockThread, InsertedAt, ReleasedExactly;
    var w := Lock(c, v, tid, page, false, given).0;
    SlotLeft(c, v, tid);
    LockOk(c, v, tid, page, false, given);
    IdFacts(c, w, Index(w, page / 8).blockId);
    StaysMovable(c, v, tid, page, given);
    ThreadFacts(c, w);
    var k := IndexOf(w.threads, tid);
    UnlockThreadExact(c, w, tid, remove);
    GivenBack(c, w, UnlockThread(c, w, tid, remove).0, page, k);
  }

  /** Without being asked to, lock_page_fixed fixes no block for a thread of the table. */
  lemma StaysMovable(c: Config, v: View, tid: nat, page: nat, given: Grant)
    requires Inv(c, v) && 1 <= page / 8 < c.BlockCount() && tid != c.init && InsertedAt(v.threads, tid).Some?
    requires (NeedsGrant(c, v, tid, page) ==> GrantOk(v, given)) && !IsFixed(v, page / 8)
    ensures !IsFixed(Lock(c, v, tid, page, false, given).0, page / 8)
  {
    hide Inv, PoolSafety.KeepsAll, LockLoaded, LockFresh, CanAlloc, Inserted, InsertedAt, OnlyBlock, OnlyNew;
    var r, bit := page / 8, page % 8;
    var v1, slot := WithThread(c, v, tid), SlotOf(c, v, tid);
    WithThreadOk(c, v, tid);
    if Index(v, r).blockId != 0 {
      BlockFacts(c, v, r);
      PoolLocking.LockLoadedOk(c, v1, r, bit, slot, false);
    } else {
      LoadBlock(c, v, v1, r, bit, slot, false, tid, given);
      PoolSafety.CanAllocKeeps(c, v1);
      SameFree(c, v, v1);
      LockFreshOk(c, CanAlloc(c, v1).0, r, bit, slot, false, given);
    }
  }

  lemma SlotLeft(c: Config, v: View, tid: nat)
    requires Inv(c, v) && InsertedAt(v.threads, tid).Some?
    ensures !forall k | 0 <= k < |v.threads| :: v.threads[k].Thread? && v.threads[k].id != tid
  {
    hide Inv;
    ThreadFacts(c, v);
    InsertKeeps(v.threads, tid);
  }

  lemma GivenBack(c: Config, w: View, u: View, page: nat, k: nat)
    requires Inv(c, w) && Inv(c, u) && 1 <= page / 8 < c.BlockCount() && Locks(w, page / 8, page % 8, k) && !IsFixed(w, page / 8)
    requires SamePlace(w, u) && forall x | x in w.heads :: x in u.heads && ReleasedExactly(c, w, u, x, k)
    ensures Locks(u, page / 8, page % 8, k) <==> |c.file| <= page
  {
    hide Inv, Partition, ThreadsOk, BlockOk, IdOk, SameBut, SameBehind, Free, HeldOnlyBy;
    var r, bit := page / 8, page % 8;
    var x := Index(w, r).blockId;
    BlockFacts(c, w, r);
    BlockFacts(c, u, r);
    ReleasedBits(c, w.heads[x], u.heads[x], k, bit);
    LastPage(c, page);
    if bit !in Index(u, r).pageLock { NotLocked(c, u, x, r, bit); }
  }

  lemma LastPage(c: Config, page: nat)
    requires page / 8 < c.BlockCount()
    ensures c.PageCount(page / 8) <= page % 8 <==> |c.file| <= page
  {
  }

  function NinePages(): Config { Config(seq(9, (i: nat) => ZeroPage()), 0, 0, 0) }

  lemma NineStart()
    ensures var v := Start(NinePages(), 1, ZeroBlock());
      InsertedAt(v.threads, 1).Some? && !IsFixed(v, 1) && GrantOk(v, Grant(1, 1 + ARENA_SIZE, ZeroBlock())) && NinePages().Valid()
  {
    hide ReadBlock;
    InsertKeeps(Start(NinePages(), 1, ZeroBlock()).threads, 1);
  }

  /** A file of nine pages: thread 1 locks page 15 and leaves, and page 15 stays locked. */
  lemma LeftLocked()
    ensures var c := NinePages(); var v := Start(c, 1, ZeroBlock()); var given := Grant(1, 1 + ARENA_SIZE, ZeroBlock());
      var w := Lock(c, v, 1, 15, false, given).0;
      && Inv(c, v) && GrantOk(v, given) && InsertedAt(v.threads, 1).Some?
      && Locks(UnlockThread(c, w, 1, true).0, 1, 7, IndexOf(w.threads, 1))
  {
    hide Inv, Lock, UnlockThread, ReadBlock, Locks, IsFixed, InsertedAt, Inserted;
    NineStart();
    var c := NinePages();
    var v := Start(c, 1, ZeroBlock());
    StartOk(c, 1, ZeroBlock());
    GivenBackIff(c, v, 1, 15, Grant(1, 1 + ARENA_SIZE, ZeroBlock()), true);
  }
}
