/** Unlocking pages, one by one or all pages of a thread. */
module PoolUnlocking {
  import opened Wrappers
  import Sequences
  import Arenas
  import opened Threads
  import opened BlockLists
  import opened PoolModel
  import opened PoolInvariant
  import PoolLocking

  /** Only the lock bits of slot k on block x may go; nothing else is lost. */
  ghost predicate Drops(v: View, w: View, x: nat, r: nat, k: nat) {
    && OnlyBlock(v, w, x, r) && w.threads == v.threads && w.free == v.free && w.fixed == v.fixed
    && Index(w, r).blockId == x
    && Head(w, x).fixedBlock == Head(v, x).fixedBlock
    && SameBut(Head(v, x), Head(w, x), k)
  }

  ghost predicate SameBut(h: BlockHead, g: BlockHead, k: nat) {
    && g.realBlock == h.realBlock && |g.pageLockThread| == |h.pageLockThread|
    && forall j: nat :: Bits(g, j) <= Bits(h, j) && Bits(h, j) - {k} <= Bits(g, j)
  }

  function DropHead(h: BlockHead, bit: nat, k: nat): BlockHead {
    WithBits(h, bit, Bits(h, bit) - {k})
  }

  lemma DropBits(h: BlockHead, bit: nat, k: nat)
    ensures SameBut(h, DropHead(h, bit, k), k)
    ensures forall j: nat :: Bits(DropHead(h, bit, k), j) == if j == bit then Bits(h, bit) - {k} else Bits(h, j)
  {
  }

  /** The page mask after a thread mask became empty. */
  function DropLock(v: View, r: nat, bit: nat, h: BlockHead): set<nat> {
    if Bits(h, bit) == {} then Index(v, r).pageLock - {bit} else Index(v, r).pageLock
  }

  lemma UnlockHeadOk(c: Config, v: View, r: nat, bit: nat, k: nat)
    requires Inv(c, v) && 1 <= r < c.BlockCount() && Index(v, r).blockId != 0 && bit in Index(v, r).pageLock
    ensures Inv(c, UnlockHead(v, r, bit, k).0)
    ensures Drops(v, UnlockHead(v, r, bit, k).0, Index(v, r).blockId, r, k)
    ensures Head(UnlockHead(v, r, bit, k).0, Index(v, r).blockId) == DropHead(Head(v, Index(v, r).blockId), bit, k)
    ensures UnlockHead(v, r, bit, k).1 == NowUnlocked ==> Index(UnlockHead(v, r, bit, k).0, r).pageLock == {}
    ensures UnlockHead(v, r, bit, k).1 == NowUnlocked ==> !Head(v, Index(v, r).blockId).fixedBlock
  {
    hide Inv, Partition, ThreadsOk, Shows, SameLists, PoolLocking.OffLists, Config.PageCount, Config.BlockCount, IdOk, BlockOk, SameBut, Sequences.Minus;
    var x := Index(v, r).blockId;
    var w := UnlockHead(v, r, bit, k).0;
    BlockFacts(c, v, r);
    var h := DropHead(v.heads[x], bit, k);
    DropBits(v.heads[x], bit, k);
    DropIndex(c, v, x, r, bit, k, h);
    assert w.table == v.table[r := BlockIndex(x, DropLock(v, r, bit, h))];
    if UnlockHead(v, r, bit, k).1 == NowUnlocked {
      DropToUnlock(c, v, w, x, r, bit, k, h);
    } else {
      DropInPlace(c, v, w, x, r, bit, k, h);
    }
    LocalChange(c, v, w, x, r);
  }

  lemma DropIndex(c: Config, v: View, x: nat, r: nat, bit: nat, k: nat, h: BlockHead)
    requires r < |v.table| && x == v.table[r].blockId && x != 0 && x in v.heads && x !in v.free
    requires BlockOk(c, v, r) && IdOk(c, v, x) && bit in v.table[r].pageLock
    requires h == DropHead(v.heads[x], bit, k)
    ensures v.table[r := v.table[r]] == v.table
    ensures h.fixedBlock == v.heads[x].fixedBlock && h.realBlock == v.heads[x].realBlock
  {
  }

  /** Other pages are still locked, or the block is fixed: it stays on its list. */
  lemma DropInPlace(c: Config, v: View, w: View, x: nat, r: nat, bit: nat, k: nat, h: BlockHead)
    requires Inv(c, v) && 1 <= r < c.BlockCount() && Index(v, r).blockId == x != 0 && bit in Index(v, r).pageLock
    requires r < |v.table| && x in v.heads && h == DropHead(v.heads[x], bit, k)
    requires w == v.(heads := v.heads[x := h], table := v.table[r := BlockIndex(x, DropLock(v, r, bit, h))])
    requires h.fixedBlock || DropLock(v, r, bit, h) != {}
    ensures GoodChange(c, v, w, x, r)
  {
    hide Inv, ThreadsOk, Shows, Config.PageCount, Config.BlockCount;
    BlockFacts(c, v, r);
    DropBits(v.heads[x], bit, k);
  }

  /** No page is locked any more: the block moves to the unlock list. */
  lemma DropToUnlock(c: Config, v: View, w: View, x: nat, r: nat, bit: nat, k: nat, h: BlockHead)
    requires Inv(c, v) && 1 <= r < c.BlockCount() && Index(v, r).blockId == x != 0 && bit in Index(v, r).pageLock
    requires r < |v.table| && x in v.heads && h == DropHead(v.heads[x], bit, k) && !h.fixedBlock
    requires DropLock(v, r, bit, h) == {}
    requires w == v.(heads := v.heads[x := h], table := v.table[r := BlockIndex(x, {})],
                     lock := Sequences.Minus(v.lock, x), unlock := [x] + v.unlock)
    ensures GoodChange(c, v, w, x, r)
  {
    hide Inv, Partition, ThreadsOk, Shows, Config.PageCount, Config.BlockCount, SameLists, PoolLocking.OffLists, Sequences.Minus;
    BlockFacts(c, v, r);
    DropBits(v.heads[x], bit, k);
    PoolLocking.TakeOff(v, x);
    InLock(v, x);
    PoolLocking.PutOn(v, w, x, 2);
  }

  lemma InLock(v: View, x: nat)
    requires Partition(v) && x in v.heads && x !in v.free && x !in v.fixed && x !in v.unlock
    ensures x in v.lock
  {
  }

  // ---- all pages of a thread ----

  /** The thread in slot k locks no page of the block that the file has. */
  ghost predicate Free(c: Config, h: BlockHead, k: nat) {
    forall i: nat | i < c.PageCount(h.realBlock) :: k !in Bits(h, i)
  }

  /** The locks on pages behind the end of the file are the same. */
  ghost predicate SameBehind(c: Config, h: BlockHead, g: BlockHead) {
    forall i: nat | c.PageCount(h.realBlock) <= i :: Bits(g, i) == Bits(h, i)
  }

  lemma DropsTrans(v: View, u: View, w: View, x: nat, r: nat, k: nat)
    requires Drops(v, u, x, r, k) && Drops(u, w, x, r, k)
    ensures Drops(v, w, x, r, k)
  {
  }

  lemma DropsRefl(v: View, x: nat, r: nat, k: nat)
    requires x in v.heads && r < |v.table| && v.table[r].blockId == x
    ensures Drops(v, v, x, r, k)
  {
  }

  /** thread_unlock_block gives up pages i.. of the block for slot k. */
  lemma {:induction false} ThreadUnlockBlockOk(c: Config, v: View, k: nat, r: nat, i: nat)
    requires Inv(c, v) && 1 <= r < c.BlockCount() && Index(v, r).blockId != 0
    requires !Head(v, Index(v, r).blockId).fixedBlock ==> forall j: nat | j < i :: k !in Bits(Head(v, Index(v, r).blockId), j)
    ensures Inv(c, ThreadUnlockBlock(c, v, k, r, i).0)
    ensures SameBehind(c, Head(v, Index(v, r).blockId), Head(ThreadUnlockBlock(c, v, k, r, i).0, Index(v, r).blockId))
    ensures Drops(v, ThreadUnlockBlock(c, v, k, r, i).0, Index(v, r).blockId, r, k)
    ensures !Head(v, Index(v, r).blockId).fixedBlock ==> Free(c, Head(ThreadUnlockBlock(c, v, k, r, i).0, Index(v, r).blockId), k)
    ensures |ThreadUnlockBlock(c, v, k, r, i).0.unlock| == |v.unlock| + if ThreadUnlockBlock(c, v, k, r, i).1 then 1 else 0
    decreases c.PageCount(r) - i
  {
    hide Inv, Partition, ThreadsOk, Shows, SameLists, PoolLocking.OffLists, Config.PageCount, Config.BlockCount, IdOk, BlockOk, Drops, Free, SameBehind;
    var x := Index(v, r).blockId;
    BlockFacts(c, v, r);
    DropsRefl(v, x, r, k);
    BehindRefl(c, v.heads[x]);
    if i >= c.PageCount(r) {
      if !v.heads[x].fixedBlock { FreeFrom(c, v, x, r, k, i); }
    } else if i in Index(v, r).pageLock {
      UnlockHeadOk(c, v, r, i, k);
      var (w, res) := UnlockHead(v, r, i, k);
      DropsHead(v, w, x, r, k);
      DropBits(v.heads[x], i, k);
      DropBehind(c, v.heads[x], i, k);
      if res == NowUnlocked {
        if !v.heads[x].fixedBlock { UnlockedIsFree(c, w, x, r, k); }
      } else {
        ThreadUnlockBlockOk(c, w, k, r, i + 1);
        BehindTrans(c, v.heads[x], Head(w, x), Head(ThreadUnlockBlock(c, w, k, r, i + 1).0, x));
        DropsTrans(v, w, ThreadUnlockBlock(c, w, k, r, i + 1).0, x, r, k);
      }
    } else {
      if !v.heads[x].fixedBlock { NotLocked(c, v, x, r, i); }
      ThreadUnlockBlockOk(c, v, k, r, i + 1);
    }
  }

  lemma BehindRefl(c: Config, h: BlockHead)
    ensures SameBehind(c, h, h)
  {
  }

  lemma BehindTrans(c: Config, h: BlockHead, g: BlockHead, f: BlockHead)
    requires SameBehind(c, h, g) && SameBehind(c, g, f) && g.realBlock == h.realBlock
    ensures SameBehind(c, h, f)
  {
  }

  lemma DropBehind(c: Config, h: BlockHead, bit: nat, k: nat)
    requires bit < c.PageCount(h.realBlock)
    ensures SameBehind(c, h, DropHead(h, bit, k))
  {
  }

  lemma DropsHead(v: View, w: View, x: nat, r: nat, k: nat)
    requires Drops(v, w, x, r, k)
    ensures Index(w, r).blockId == x && Head(w, x).fixedBlock == Head(v, x).fixedBlock && x in v.heads && x in w.heads
  {
  }

  lemma NotLocked(c: Config, v: View, x: nat, r: nat, i: nat)
    requires Inv(c, v) && 1 <= r < c.BlockCount() && Index(v, r).blockId == x != 0 && !Head(v, x).fixedBlock
    requires i !in Index(v, r).pageLock
    ensures Bits(Head(v, x), i) == {}
  {
    BlockFacts(c, v, r);
  }

  lemma FreeFrom(c: Config, v: View, x: nat, r: nat, k: nat, n: nat)
    requires Inv(c, v) && 1 <= r < c.BlockCount() && Index(v, r).blockId == x != 0 && !Head(v, x).fixedBlock
    requires n >= c.PageCount(r) && forall j: nat | j < n :: k !in Bits(Head(v, x), j)
    ensures Free(c, Head(v, x), k)
  {
    hide Inv, IdOk, BlockOk, Partition, ThreadsOk;
    BlockFacts(c, v, r);
  }

  lemma UnlockedIsFree(c: Config, v: View, x: nat, r: nat, k: nat)
    requires Inv(c, v) && 1 <= r < c.BlockCount() && Index(v, r).blockId == x != 0 && !Head(v, x).fixedBlock
    requires Index(v, r).pageLock == {}
    ensures Free(c, Head(v, x), k)
  {
    forall i: nat ensures k !in Bits(Head(v, x), i) { NotLocked(c, v, x, r, i); }
  }

  lemma {:induction false} NothingLoaded(c: Config, v: View, k: nat, r: nat, i: nat)
    requires Index(v, r).blockId == 0
    ensures ThreadUnlockBlock(c, v, k, r, i) == (v, false)
    decreases c.PageCount(r) - i
  {
    if i < c.PageCount(r) { NothingLoaded(c, v, k, r, i + 1); }
  }

  /** The heads of the blocks treated so far have lost slot k (unless they are fixed), the others are untouched. */
  ghost predicate Released(c: Config, v: View, w: View, k: nat, mask: set<nat>, n: nat) {
    && w.adr == v.adr && w.data == v.data && w.threads == v.threads && w.free == v.free
    && w.heads.Keys == v.heads.Keys && |w.table| == |v.table|
    && (forall r: nat :: Index(w, r).blockId == Index(v, r).blockId)
    && (forall x | x in v.heads :: ReleasedHead(c, v.heads[x], w.heads[x], k, v.heads[x].realBlock in mask && v.heads[x].realBlock < n))
  }

  ghost predicate ReleasedHead(c: Config, h: BlockHead, g: BlockHead, k: nat, done: bool) {
    if done then SameBut(h, g, k) && SameBehind(c, h, g) && g.fixedBlock == h.fixedBlock && (!h.fixedBlock ==> Free(c, g, k)) else g == h
  }

  lemma {:induction false} ThreadUnlockBlocksOk(c: Config, v: View, k: nat, mask: set<nat>, n: nat)
    requires Inv(c, v) && n <= c.BlockCount() && 0 !in mask
    ensures Inv(c, ThreadUnlockBlocks(c, v, k, mask, n).0)
    ensures Released(c, v, ThreadUnlockBlocks(c, v, k, mask, n).0, k, mask, n)
    ensures |ThreadUnlockBlocks(c, v, k, mask, n).0.unlock| == |v.unlock| + ThreadUnlockBlocks(c, v, k, mask, n).1
  {
    if n > 0 {
      hide Inv, Released, ThreadUnlockBlock, Drops, Free;
      var w := ThreadUnlockBlocks(c, v, k, mask, n - 1).0;
      ThreadUnlockBlocksOk(c, v, k, mask, n - 1);
      if n - 1 !in mask {
        ReleasedSkip(c, v, w, k, mask, n);
      } else if Index(w, n - 1).blockId == 0 {
        NothingLoaded(c, w, k, n - 1, 0);
        ReleasedSkip(c, v, w, k, mask, n);
      } else {
        ThreadUnlockBlockOk(c, w, k, n - 1, 0);
        ReleasedStep(c, v, w, ThreadUnlockBlock(c, w, k, n - 1, 0).0, k, mask, n);
      }
    }
  }

  lemma ReleasedSkip(c: Config, v: View, w: View, k: nat, mask: set<nat>, n: nat)
    requires Inv(c, v) && n > 0 && 0 !in mask && Released(c, v, w, k, mask, n - 1)
    requires n - 1 !in mask || Index(w, n - 1).blockId == 0
    ensures Released(c, v, w, k, mask, n)
  {
    hide Inv, ReleasedHead, IdOk;
    forall x | x in v.heads
      ensures ReleasedHead(c, v.heads[x], w.heads[x], k, v.heads[x].realBlock in mask && v.heads[x].realBlock < n)
    {
      IdFacts(c, v, x);
    }
  }

  lemma ReleasedStep(c: Config, v: View, w: View, u: View, k: nat, mask: set<nat>, n: nat)
    requires Inv(c, v) && n > 1 && n - 1 < c.BlockCount() && n - 1 in mask && 0 !in mask
    requires Released(c, v, w, k, mask, n - 1)
    requires Index(w, n - 1).blockId != 0 && Drops(w, u, Index(w, n - 1).blockId, n - 1, k)
    requires !Head(w, Index(w, n - 1).blockId).fixedBlock ==> Free(c, Head(u, Index(w, n - 1).blockId), k)
    requires SameBehind(c, Head(w, Index(w, n - 1).blockId), Head(u, Index(w, n - 1).blockId))
    ensures Released(c, v, u, k, mask, n)
  {
    hide Inv, IdOk, Partition, ThreadsOk, BlockOk, SameLists, SameBut, Free;
    var x := Index(w, n - 1).blockId;
    BlockFacts(c, v, n - 1);
    forall y | y in v.heads
      ensures ReleasedHead(c, v.heads[y], u.heads[y], k, v.heads[y].realBlock in mask && v.heads[y].realBlock < n)
    {
      IdFacts(c, v, y);
    }
  }

  /** A slot that locks no page of the file on a movable block may lose its blocks, or its thread. */
  lemma ForgetBlocks(c: Config, v: View, w: View, k: nat)
    requires Inv(c, v) && k < |v.threads| && |w.threads| == |v.threads| && w == v.(threads := w.threads)
    requires w.threads == v.threads[k := w.threads[k]] && ThreadsOk(c, w.threads)
    requires forall x | x in v.heads && x !in v.free && !v.heads[x].fixedBlock ::
               Free(c, v.heads[x], k) || v.heads[x].realBlock in BlocksOf(w.threads, k)
    requires forall b | b in BlocksOf(w.threads, k) :: b in BlocksOf(v.threads, k)
    ensures Inv(c, w)
  {
    forall x | x in w.heads ensures IdOk(c, w, x) {
      ForgetId(c, v, w, k, x);
    }
    forall r: nat | 1 <= r < |w.table| ensures BlockOk(c, w, r) {
      assert BlockOk(c, v, r);
    }
  }

  lemma ForgetId(c: Config, v: View, w: View, k: nat, x: nat)
    requires Inv(c, v) && k < |v.threads| && |w.threads| == |v.threads| && w == v.(threads := w.threads) && x in v.heads
    requires w.threads == v.threads[k := w.threads[k]]
    requires x !in v.free && !v.heads[x].fixedBlock ==> Free(c, v.heads[x], k) || v.heads[x].realBlock in BlocksOf(w.threads, k)
    ensures IdOk(c, w, x)
  {
    hide Inv, Shows;
    IdFacts(c, v, x);
    assert forall j: nat | j != k :: BlocksOf(w.threads, j) == BlocksOf(v.threads, j);
  }

  /** A thread's slot covers every movable block with a page of the file that it locks. */
  lemma Covered(c: Config, v: View, x: nat, k: nat)
    requires Inv(c, v) && x in v.heads && x !in v.free && !v.heads[x].fixedBlock
    requires v.heads[x].realBlock !in BlocksOf(v.threads, k)
    ensures Free(c, v.heads[x], k)
  {
    IdFacts(c, v, x);
    assert |v.heads[x].pageLockThread| == Arenas.BLOCK_PAGES;
  }

  /** A slot without a thread locks no page of the file on a movable block, so a thread that gets it later inherits none. */
  lemma EmptySlotIsFree(c: Config, v: View, x: nat, k: nat)
    requires Inv(c, v) && k < |v.threads| && v.threads[k].NoThread?
    requires x in v.heads && x !in v.free && !v.heads[x].fixedBlock
    ensures Free(c, v.heads[x], k)
  {
    Covered(c, v, x, k);
  }

  ghost predicate HeldOnlyBy(c: Config, h: BlockHead, k: nat) {
    forall i: nat :: Bits(h, i) <= if i < c.PageCount(h.realBlock) then {k} else {}
  }

  /** What a released movable block looks like: slot k is gone from the pages the file has, every other lock is still there,
      and it is on the unlock list exactly if these were all its locks. */
  ghost predicate ReleasedExactly(c: Config, v: View, w: View, x: nat, k: nat)
    requires x in v.heads && x in w.heads
  {
    && SameBut(v.heads[x], w.heads[x], k) && SameBehind(c, v.heads[x], w.heads[x]) && w.heads[x].fixedBlock == v.heads[x].fixedBlock
    && (x !in v.free && !v.heads[x].fixedBlock ==>
          Free(c, w.heads[x], k) && (x in w.unlock <==> HeldOnlyBy(c, v.heads[x], k)))
  }

  /** The places and the bytes of all blocks are the same, and so is which file block is where. */
  ghost predicate SamePlace(v: View, w: View) {
    && w.adr == v.adr && w.data == v.data && w.heads.Keys == v.heads.Keys && w.free == v.free
    && |w.table| == |v.table| && (forall r: nat :: Index(w, r).blockId == Index(v, r).blockId)
  }

  /** unlock_thread leaves no movable page of the file locked by the thread, takes no other lock, unlocks exactly
      the blocks without other locks, and counts them. */
  lemma UnlockThreadExact(c: Config, v: View, tid: nat, remove: bool)
    requires Inv(c, v) && tid != c.init && IndexOf(v.threads, tid) < MAX_THREAD
    ensures Inv(c, UnlockThread(c, v, tid, remove).0) && SamePlace(v, UnlockThread(c, v, tid, remove).0)
    ensures forall x | x in v.heads :: ReleasedExactly(c, v, UnlockThread(c, v, tid, remove).0, x, IndexOf(v.threads, tid))
    ensures |UnlockThread(c, v, tid, remove).0.unlock| == |v.unlock| + UnlockThread(c, v, tid, remove).1
    ensures UnlockThread(c, v, tid, remove).0.threads ==
              v.threads[IndexOf(v.threads, tid) := if remove then NoThread else Thread(tid, {})]
  {
    hide Inv, Released, ReleasedExactly;
    var k := IndexOf(v.threads, tid);
    var mask := BlocksOf(v.threads, k);
    ThreadFacts(c, v);
    ThreadUnlockBlocksOk(c, v, k, mask, c.BlockCount());
    var u := ThreadUnlockBlocks(c, v, k, mask, c.BlockCount()).0;
    var w := UnlockThread(c, v, tid, remove).0;
    ReleasedAll(c, v, u, k, mask);
    assert w == u.(threads := v.threads[k := if remove then NoThread else Thread(tid, {})]);
    ForgetOk(c, v, tid, remove);
    ForgetBlocks(c, u, w, k);
    forall x | x in v.heads ensures ReleasedExactly(c, v, w, x, k) {
      Exactly(c, v, u, w, x, k);
    }
  }

  lemma ThreadFacts(c: Config, v: View)
    requires Inv(c, v)
    ensures |v.threads| == MAX_THREAD && ThreadsOk(c, v.threads) && |v.table| == c.BlockCount()
    ensures forall k: nat :: 0 !in BlocksOf(v.threads, k)
  {
  }

  lemma ForgetOk(c: Config, v: View, tid: nat, remove: bool)
    requires ThreadsOk(c, v.threads) && IndexOf(v.threads, tid) < |v.threads|
    ensures ThreadsOk(c, v.threads[IndexOf(v.threads, tid) := if remove then NoThread else Thread(tid, {})])
    ensures BlocksOf(v.threads[IndexOf(v.threads, tid) := if remove then NoThread else Thread(tid, {})], IndexOf(v.threads, tid)) == {}
  {
    var k := IndexOf(v.threads, tid);
    var t := v.threads[k := if remove then NoThread else Thread(tid, {})];
    forall j, b | 0 <= j < |t| && b in BlocksOf(t, j) ensures 1 <= b < c.BlockCount() {
      assert b in BlocksOf(v.threads, j);
    }
  }

  lemma ReleasedAll(c: Config, v: View, u: View, k: nat, mask: set<nat>)
    requires Inv(c, v) && mask == BlocksOf(v.threads, k) && Released(c, v, u, k, mask, c.BlockCount())
    ensures SamePlace(v, u) && u.threads == v.threads
    ensures forall x | x in v.heads :: SameBut(v.heads[x], u.heads[x], k) && u.heads[x].fixedBlock == v.heads[x].fixedBlock
    ensures forall x | x in v.heads :: SameBehind(c, v.heads[x], u.heads[x])
    ensures forall x | x in v.heads && x !in v.free && !v.heads[x].fixedBlock :: Free(c, u.heads[x], k)
  {
    hide Inv, IdOk;
    forall x | x in v.heads
      ensures SameBut(v.heads[x], u.heads[x], k) && SameBehind(c, v.heads[x], u.heads[x]) && u.heads[x].fixedBlock == v.heads[x].fixedBlock
      ensures x !in v.free && !v.heads[x].fixedBlock ==> Free(c, u.heads[x], k)
    {
      IdFacts(c, v, x);
      if x !in v.free && !v.heads[x].fixedBlock && v.heads[x].realBlock !in mask {
        Covered(c, v, x, k);
      }
    }
  }

  lemma Exactly(c: Config, v: View, u: View, w: View, x: nat, k: nat)
    requires Inv(c, w) && x in v.heads && x in u.heads && w == u.(threads := w.threads) && w.free == v.free
    requires SameBut(v.heads[x], u.heads[x], k) && SameBehind(c, v.heads[x], u.heads[x]) && u.heads[x].fixedBlock == v.heads[x].fixedBlock
    requires x !in v.free && !v.heads[x].fixedBlock ==> Free(c, u.heads[x], k)
    ensures ReleasedExactly(c, v, w, x, k)
  {
    if x !in v.free && !v.heads[x].fixedBlock {
      UnlockedIff(c, w, x);
    }
  }

  /** A movable block is on the unlock list exactly if no thread locks a page of it. */
  lemma UnlockedIff(c: Config, v: View, x: nat)
    requires Inv(c, v) && x in v.heads && x !in v.free && !v.heads[x].fixedBlock
    ensures x in v.unlock <==> forall i: nat :: Bits(v.heads[x], i) == {}
    ensures x in v.lock <==> x !in v.unlock
  {
    IdFacts(c, v, x);
    BlockFacts(c, v, v.heads[x].realBlock);
    if x !in v.unlock {
      InLock(v, x);
      var i :| i in Index(v, v.heads[x].realBlock).pageLock;
      assert Bits(v.heads[x], i) != {};
    }
  }

  // ---- one page ----

  /** unlock_page takes at most the calling thread's lock on that page, and reports whether the block became unlocked. */
  lemma UnlockPageExact(c: Config, v: View, tid: nat, page: nat)
    requires Inv(c, v)
    ensures Inv(c, Unlock(c, v, tid, page).0) && SamePlace(v, Unlock(c, v, tid, page).0)
    ensures forall x | x in v.heads :: SameBut(v.heads[x], Unlock(c, v, tid, page).0.heads[x], IndexOf(v.threads, tid))
    ensures forall x | x in v.heads :: Unlock(c, v, tid, page).0.heads[x].fixedBlock == v.heads[x].fixedBlock
    ensures Unlock(c, v, tid, page).1 == Some(true) ==>
              Index(v, page / 8).pageLock != {} && Index(Unlock(c, v, tid, page).0, page / 8).pageLock == {}
    ensures SameIds(v.threads, Unlock(c, v, tid, page).0.threads)
    ensures tid == c.init ==> Unlock(c, v, tid, page).0 == v
    ensures forall x | x in v.heads && v.heads[x].realBlock != page / 8 :: Unlock(c, v, tid, page).0.heads[x] == v.heads[x]
    ensures forall x, i: nat | x in v.heads && i != page % 8 :: Bits(Unlock(c, v, tid, page).0.heads[x], i) == Bits(v.heads[x], i)
  {
    hide Inv, IdOk, SameBut;
    var r, bit, k := page / 8, page % 8, IndexOf(v.threads, tid);
    ThreadFacts(c, v);
    RefreshSame(v, k);
    if 1 <= r < c.BlockCount() && tid != c.init && Index(v, r).blockId != 0 && bit in Index(v, r).pageLock && k < MAX_THREAD {
      UnlockHeadOk(c, v, r, bit, k);
      var x := Index(v, r).blockId;
      var (w, res) := UnlockHead(v, r, bit, k);
      BlockFacts(c, v, r);
      DropSame(v, w, x, r, bit, k);
      BlockFacts(c, w, r);
      if res == NowUnlocked { UnlockedIsFree(c, w, x, r, k); }
      if res == NowUnlocked || !HoldsPage(Head(w, x), k, c.PageCount(r)) {
        ClearBlockOk(c, w, x, r, k);
      }
    }
  }

  /** After unlock_page of a locked page the thread does not lock it any more; its mask names the block only if it locks
      another page of it; and the result tells whether the block went from the lock list to the unlock list. */
  lemma UnlockPageForgets(c: Config, v: View, tid: nat, page: nat)
    requires Inv(c, v) && tid != c.init && 1 <= page / 8 < c.BlockCount() && IndexOf(v.threads, tid) < MAX_THREAD
    requires Index(v, page / 8).blockId != 0 && page % 8 in Index(v, page / 8).pageLock
    ensures var (w, res) := Unlock(c, v, tid, page); var x, k := Index(v, page / 8).blockId, IndexOf(v.threads, tid);
      && x in w.heads && k !in Bits(w.heads[x], page % 8)
      && (page / 8 in BlocksOf(w.threads, k) ==> HoldsPage(w.heads[x], k, c.PageCount(page / 8)))
      && (res == Some(true) <==> x in v.lock && x in w.unlock)
  {
    hide Inv, IdOk, BlockOk, SameBut, HoldsPage, UnlockHead, ThreadsOk;
    var r, bit, k := page / 8, page % 8, IndexOf(v.threads, tid);
    ThreadFacts(c, v);
    BlockFacts(c, v, r);
    UnlockHeadOk(c, v, r, bit, k);
    var x := Index(v, r).blockId;
    var (w, res) := UnlockHead(v, r, bit, k);
    UnlockMoves(c, v, r, bit, k);
    DropBits(v.heads[x], bit, k);
    BlockFacts(c, w, r);
  }

  lemma UnlockMoves(c: Config, v: View, r: nat, bit: nat, k: nat)
    requires Inv(c, v) && 1 <= r < c.BlockCount() && Index(v, r).blockId != 0 && bit in Index(v, r).pageLock
    ensures UnlockHead(v, r, bit, k).1 == NowUnlocked <==>
              Index(v, r).blockId in v.lock && Index(v, r).blockId in UnlockHead(v, r, bit, k).0.unlock
  {
    hide Inv, ThreadsOk, BlockOk;
    BlockFacts(c, v, r);
    var x := Index(v, r).blockId;
    if UnlockHead(v, r, bit, k).1 == NowUnlocked {
      UnlockHeadOk(c, v, r, bit, k);
      InLock(v, x);
    }
  }

  ghost predicate SameIds(s: seq<Slot>, t: seq<Slot>) {
    |t| == |s| && forall k | 0 <= k < |s| :: (s[k].NoThread? <==> t[k].NoThread?) && (s[k].Thread? ==> t[k].id == s[k].id)
  }

  lemma RefreshSame(v: View, k: nat)
    ensures forall x | x in v.heads :: SameBut(v.heads[x], v.heads[x], k)
  {
  }

  lemma DropSame(v: View, w: View, x: nat, r: nat, bit: nat, k: nat)
    requires Drops(v, w, x, r, k) && Head(w, x) == DropHead(Head(v, x), bit, k) && Index(v, r).blockId == x
    ensures SamePlace(v, w)
    ensures forall y | y in v.heads :: SameBut(v.heads[y], w.heads[y], k) && w.heads[y].fixedBlock == v.heads[y].fixedBlock
    ensures forall y | y in v.heads && y != x :: w.heads[y] == v.heads[y]
    ensures forall y, i: nat | y in v.heads && i != bit :: Bits(w.heads[y], i) == Bits(v.heads[y], i)
  {
    DropBits(Head(v, x), bit, k);
    RefreshSame(v, k);
    hide SameBut, DropHead;
  }

  lemma ClearBlockOk(c: Config, v: View, x: nat, r: nat, k: nat)
    requires Inv(c, v) && 1 <= r < c.BlockCount() && Index(v, r).blockId == x != 0
    requires !HoldsPage(Head(v, x), k, c.PageCount(r)) || (!Head(v, x).fixedBlock && Free(c, Head(v, x), k))
    ensures Inv(c, ClearBlockOf(v, k, r)) && SameIds(v.threads, ClearBlockOf(v, k, r).threads)
  {
    hide Inv, IdOk, Partition;
    var w := ClearBlockOf(v, k, r);
    BlockFacts(c, v, r);
    if k < |v.threads| && v.threads[k].Thread? {
      forall y | y in v.heads && y !in v.free && !v.heads[y].fixedBlock
        ensures Free(c, v.heads[y], k) || v.heads[y].realBlock in BlocksOf(w.threads, k)
      {
        IdFacts(c, v, y);
        if v.heads[y].realBlock !in BlocksOf(v.threads, k) {
          Covered(c, v, y, k);
        } else if y == x && !HoldsPage(Head(v, x), k, c.PageCount(r)) {
          NotHeld(c, v, x, r, k);
        }
      }
      ClearThreads(c, v.threads, k, r);
      ForgetBlocks(c, v, w, k);
    }
  }

  lemma NotHeld(c: Config, v: View, x: nat, r: nat, k: nat)
    requires Inv(c, v) && 1 <= r < c.BlockCount() && Index(v, r).blockId == x != 0 && !Head(v, x).fixedBlock
    requires !HoldsPage(Head(v, x), k, c.PageCount(r))
    ensures Free(c, Head(v, x), k)
  {
    hide Inv, IdOk, BlockOk, Partition, ThreadsOk;
    BlockFacts(c, v, r);
  }

  lemma ClearThreads(c: Config, s: seq<Slot>, k: nat, r: nat)
    requires ThreadsOk(c, s) && k < |s| && s[k].Thread?
    ensures ThreadsOk(c, WithBlocks(s, k, BlocksOf(s, k) - {r}))
  {
    var t := WithBlocks(s, k, BlocksOf(s, k) - {r});
    forall j, b | 0 <= j < |t| && b in BlocksOf(t, j) ensures 1 <= b < c.BlockCount() {
      assert b in BlocksOf(s, j);
    }
  }
}
