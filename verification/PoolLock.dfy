/** Locking a page of a loaded block. */
module PoolLocking {
  import opened Wrappers
  import opened Sequences
  import opened Arenas
  import Threads
  import opened BlockLists
  import opened PoolModel
  import opened PoolInvariant

  ghost predicate SlotOk(v: View, slot: Option<nat>) {
    slot.Some? ==> slot.value < |v.threads| && v.threads[slot.value].Thread?
  }

  /** What locking page bit of the loaded file block r does to its entry and its head. */
  ghost predicate Locked(v: View, w: View, r: nat, bit: nat, slot: Option<nat>, fix: bool) {
    var x := Index(v, r).blockId;
    && OnlyBlock(v, w, x, r)
    && Index(w, r) == BlockIndex(x, Index(v, r).pageLock + {bit})
    && Head(w, x) == LockedHead(Head(v, x), bit, slot).(fixedBlock := Head(v, x).fixedBlock || slot.None? || fix)
  }

  /** The head after a thread slot (if any) is added to the mask of a page. */
  function LockedHead(h: BlockHead, bit: nat, slot: Option<nat>): BlockHead {
    if slot.Some? then WithBits(h, bit, Bits(h, bit) + {slot.value}) else h
  }

  /** Taking x off the lock and unlock lists. */
  ghost predicate OffLists(v: View, lock: seq<nat>, unlock: seq<nat>, x: nat) {
    && Distinct(lock) && Distinct(unlock)
    && (forall id :: id in lock <==> id in v.lock && id != x)
    && (forall id :: id in unlock <==> id in v.unlock && id != x)
  }

  lemma TakeOff(v: View, x: nat)
    requires Partition(v)
    ensures OffLists(v, Minus(v.lock, x), Minus(v.unlock, x), x)
    ensures x !in v.lock ==> Minus(v.lock, x) == v.lock
    ensures x !in v.unlock ==> Minus(v.unlock, x) == v.unlock
  {
    MinusMembers(v.lock, x);
    MinusMembers(v.unlock, x);
    if x !in v.lock { MinusAbsent(v.lock, x); }
    if x !in v.unlock { MinusAbsent(v.unlock, x); }
  }

  /** x is put at the head of one of the lists lock (1), unlock (2), fixed (3). */
  lemma PutOn(v: View, w: View, x: nat, list: nat)
    requires Partition(v) && x in v.heads && x !in v.free && x !in v.fixed && w.heads.Keys == v.heads.Keys
    requires OffLists(v, Minus(v.lock, x), Minus(v.unlock, x), x) && w.free == v.free
    requires w.lock == if list == 1 then [x] + Minus(v.lock, x) else Minus(v.lock, x)
    requires w.unlock == if list == 2 then [x] + Minus(v.unlock, x) else Minus(v.unlock, x)
    requires w.fixed == if list == 3 then [x] + v.fixed else v.fixed
    requires 1 <= list <= 3
    ensures Partition(w) && SameLists(v, w, x)
    ensures (x in w.lock <==> list == 1) && (x in w.unlock <==> list == 2) && (x in w.fixed <==> list == 3) && x !in w.free
  {
  }

  lemma AddBlock(c: Config, s: seq<Threads.Slot>, k: nat, r: nat)
    requires ThreadsOk(c, s) && k < |s| && s[k].Thread? && 1 <= r < c.BlockCount()
    ensures ThreadsOk(c, WithBlocks(s, k, BlocksOf(s, k) + {r}))
    ensures forall j, b :: b in BlocksOf(s, j) ==> b in BlocksOf(WithBlocks(s, k, BlocksOf(s, k) + {r}), j)
    ensures r in BlocksOf(WithBlocks(s, k, BlocksOf(s, k) + {r}), k)
    ensures |WithBlocks(s, k, BlocksOf(s, k) + {r})| == |s|
  {
    var t := WithBlocks(s, k, BlocksOf(s, k) + {r});
    forall j, b | 0 <= j < |t| && b in BlocksOf(t, j) ensures 1 <= b < c.BlockCount() {
      assert j != k ==> t[j] == s[j];
      assert b != r ==> b in BlocksOf(s, j);
    }
  }

  lemma LockLoadedOk(c: Config, v: View, r: nat, bit: nat, slot: Option<nat>, fix: bool)
    requires Inv(c, v) && 1 <= r < c.BlockCount() && bit < BLOCK_PAGES && SlotOk(v, slot)
    requires Index(v, r).blockId != 0
    ensures Inv(c, LockLoaded(v, r, bit, slot, fix))
    ensures Locked(v, LockLoaded(v, r, bit, slot, fix), r, bit, slot, fix)
  {
    hide Inv, Partition, ThreadsOk, Shows, SameLists, OffLists, Config.PageCount, Config.BlockCount;
    var x := Index(v, r).blockId;
    var w := LockLoaded(v, r, bit, slot, fix);
    BlockFacts(c, v, r);
    TakeOff(v, x);
    var h := w.heads[x];
    if v.heads[x].fixedBlock {
      LockFixed(c, v, w, x, r, bit, slot, h);
    } else if slot.None? || fix {
      LockToFixed(c, v, w, x, r, bit, slot, h);
    } else {
      LockPlain(c, v, w, x, r, bit, slot.value, h);
    }
    LocalChange(c, v, w, x, r);
  }

  function LockedTable(v: View, r: nat, bit: nat): seq<BlockIndex>
    requires r < |v.table|
  {
    v.table[r := BlockIndex(v.table[r].blockId, v.table[r].pageLock + {bit})]
  }

  /** The entry and the head after locking are in order, whatever list the block is on. */
  lemma LockIndex(c: Config, v: View, w: View, x: nat, r: nat, bit: nat, h: BlockHead)
    requires r < |v.table| && BlockOk(c, v, r) && x == v.table[r].blockId != 0 && bit < BLOCK_PAGES
    requires w.table == LockedTable(v, r, bit) && w.heads == v.heads[x := h] && h.realBlock == r && x !in w.free
    ensures BlockOk(c, w, r) && Index(w, r) == BlockIndex(x, v.table[r].pageLock + {bit})
    ensures |w.table| == |v.table| && w.table == v.table[r := Index(w, r)]
  {
  }

  /** The block is fixed already: only the masks change. */
  lemma LockFixed(c: Config, v: View, w: View, x: nat, r: nat, bit: nat, slot: Option<nat>, h: BlockHead)
    requires Inv(c, v) && 1 <= r < c.BlockCount() && bit < BLOCK_PAGES
    requires x == Index(v, r).blockId != 0 && Head(v, x).fixedBlock
    requires h == LockedHead(Head(v, x), bit, slot) && r < |v.table|
    requires w == v.(heads := v.heads[x := h], table := LockedTable(v, r, bit))
    ensures GoodChange(c, v, w, x, r)
  {
    hide Inv, ThreadsOk, Shows, Config.PageCount, Config.BlockCount, BlockOk, LockedTable;
    BlockFacts(c, v, r);
    LockIndex(c, v, w, x, r, bit, h);
  }

  /** The block becomes fixed. */
  lemma LockToFixed(c: Config, v: View, w: View, x: nat, r: nat, bit: nat, slot: Option<nat>, h: BlockHead)
    requires Inv(c, v) && 1 <= r < c.BlockCount() && bit < BLOCK_PAGES
    requires x == Index(v, r).blockId != 0 && !Head(v, x).fixedBlock
    requires h == LockedHead(Head(v, x), bit, slot).(fixedBlock := true) && r < |v.table|
    requires w == v.(heads := v.heads[x := h], table := LockedTable(v, r, bit),
                     lock := Minus(v.lock, x), unlock := Minus(v.unlock, x), fixed := [x] + v.fixed)
    ensures GoodChange(c, v, w, x, r)
  {
    hide Inv, Partition, ThreadsOk, Shows, Config.PageCount, Config.BlockCount, SameLists, OffLists, Minus, BlockOk, LockedTable;
    BlockFacts(c, v, r);
    TakeOff(v, x);
    PutOn(v, w, x, 3);
    LockIndex(c, v, w, x, r, bit, h);
  }

  /** A thread locks a page of a block that stays movable once it is unlocked. */
  lemma LockPlain(c: Config, v: View, w: View, x: nat, r: nat, bit: nat, k: nat, h: BlockHead)
    requires Inv(c, v) && 1 <= r < c.BlockCount() && bit < BLOCK_PAGES && k < |v.threads| && v.threads[k].Thread?
    requires x == Index(v, r).blockId != 0 && !Head(v, x).fixedBlock
    requires h == LockedHead(Head(v, x), bit, Some(k)) && r < |v.table|
    requires w == v.(heads := v.heads[x := h], table := LockedTable(v, r, bit),
                     lock := [x] + Minus(v.lock, x), unlock := Minus(v.unlock, x),
                     threads := WithBlocks(v.threads, k, BlocksOf(v.threads, k) + {r}))
    ensures GoodChange(c, v, w, x, r)
  {
    hide Inv, Partition, ThreadsOk, Shows, Config.PageCount, Config.BlockCount, SameLists, OffLists, WithBlocks, BlocksOf, Minus, BlockOk;
    BlockFacts(c, v, r);
    TakeOff(v, x);
    PutOn(v, w, x, 1);
    AddBlock(c, v.threads, k, r);
    LockPlainId(c, v, w, x, r, bit, k, h);
    LockIndex(c, v, w, x, r, bit, h);
  }

  lemma LockPlainId(c: Config, v: View, w: View, x: nat, r: nat, bit: nat, k: nat, h: BlockHead)
    requires 1 <= r < c.BlockCount() && bit < BLOCK_PAGES && r < |v.table| && x == v.table[r].blockId
    requires x in v.heads && v.heads[x].realBlock == r && |v.heads[x].pageLockThread| == BLOCK_PAGES
    requires IdOk(c, v, x) && !v.heads[x].fixedBlock && x !in v.free
    requires h == LockedHead(v.heads[x], bit, Some(k))
    requires w.heads == v.heads[x := h] && w.table == LockedTable(v, r, bit) && w.data == v.data
    requires x in w.lock && x !in w.unlock && x !in w.fixed && x !in w.free
    requires forall j, b :: b in BlocksOf(v.threads, j) ==> b in BlocksOf(w.threads, j)
    requires r in BlocksOf(w.threads, k)
    ensures IdOk(c, w, x)
  {
    hide Shows, Config.PageCount, Config.BlockCount;
    var locked := Index(w, r).pageLock;
    forall i: nat | i < BLOCK_PAGES ensures i in locked <==> Bits(h, i) != {} {
      assert Bits(h, i) == if i == bit then Bits(v.heads[x], i) + {k} else Bits(v.heads[x], i);
      assert k in Bits(h, bit);
    }
    assert bit in locked;
  }
}
