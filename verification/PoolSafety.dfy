/** What no call may do to blocks that are locked or fixed. */
module PoolSafety {
  import opened Wrappers
  import Arenas
  import opened Moves
  import opened Threads
  import opened PoolModel
  import opened PoolInvariant
  import opened PoolLocking
  import opened PoolUnlocking
  import opened PoolMemory

  /** Pool block x holds a file block that is locked or fixed. */
  ghost predicate Pin(v: View, x: nat) { x in v.lock || x in v.fixed }

  /** Block x stays where it is, with the bytes it has, for the file block it holds; if it was fixed it stays fixed. */
  ghost predicate Stays(v: View, w: View, x: nat) {
    && x in v.heads && x in w.heads && w.heads[x].realBlock == v.heads[x].realBlock
    && (v.heads[x].fixedBlock ==> w.heads[x].fixedBlock)
    && x in v.adr && x in w.adr && w.adr[x] == v.adr[x]
    && x in v.data && x in w.data && w.data[x] == v.data[x]
    && Index(w, v.heads[x].realBlock).blockId == Index(v, v.heads[x].realBlock).blockId
  }

  /** Block x stays, and stays pinned with all locks that are on it. */
  ghost predicate Keeps(v: View, w: View, x: nat) {
    Stays(v, w, x) && Pin(w, x) && forall i: nat :: Bits(v.heads[x], i) <= Bits(w.heads[x], i)
  }

  /** The zero block never changes. */
  ghost predicate SameZero(v: View, w: View) {
    && 0 in v.adr && 0 in w.adr && w.adr[0] == v.adr[0]
    && 0 in v.data && 0 in w.data && w.data[0] == v.data[0]
  }

  ghost predicate KeepsAll(v: View, w: View) {
    SameZero(v, w) && |w.table| == |v.table| && forall x | Pin(v, x) :: Keeps(v, w, x)
  }

  lemma KeepsTrans(u: View, v: View, w: View)
    requires KeepsAll(u, v) && KeepsAll(v, w)
    ensures KeepsAll(u, w)
  {
    forall x | Pin(u, x) ensures Keeps(u, w, x) {
      assert Keeps(u, v, x) && Keeps(v, w, x);
    }
  }

  lemma PinFacts(c: Config, v: View, x: nat)
    requires Inv(c, v) && Pin(v, x)
    ensures x in v.heads && x in v.adr && x in v.data && x !in v.free && x !in v.unlock && x != 0
    ensures 1 <= v.heads[x].realBlock < c.BlockCount() && Index(v, v.heads[x].realBlock).blockId == x
  {
    assert x in v.heads;
    IdFacts(c, v, x);
  }

  lemma ZeroSame(c: Config, v: View)
    requires Inv(c, v)
    ensures SameZero(v, v)
  {
  }

  lemma KeepsRefl(c: Config, v: View)
    requires Inv(c, v)
    ensures KeepsAll(v, v)
  {
    hide Inv;
    ZeroSame(c, v);
    forall x | Pin(v, x) ensures Keeps(v, v, x) { PinFacts(c, v, x); }
  }

  // ---- eviction and release ----

  lemma FreeUnlockKeeps(c: Config, v: View, count: nat)
    requires Inv(c, v)
    ensures Inv(c, FreeUnlock(v, count)) && KeepsAll(v, FreeUnlock(v, count))
  {
    hide Inv;
    FreeUnlockOk(c, v, count);
    ZeroSame(c, v);
    forall x | Pin(v, x) ensures Keeps(v, FreeUnlock(v, count), x) {
      PinFacts(c, v, x);
      assert Untouched(v, FreeUnlock(v, count), x);
    }
  }

  lemma CanAllocKeeps(c: Config, v: View)
    requires Inv(c, v)
    ensures Inv(c, CanAlloc(c, v).0) && KeepsAll(v, CanAlloc(c, v).0)
    ensures CanAlloc(c, v).0.adr == v.adr && CanAlloc(c, v).0.threads == v.threads
    ensures CanAlloc(c, v).0.free == [] ==> v.free == []
    ensures forall r: nat | Index(v, r).blockId == 0 :: Index(CanAlloc(c, v).0, r) == Index(v, r)
  {
    hide Inv, KeepsAll;
    KeepsRefl(c, v);
    FreeUnlockKeeps(c, v, FreePoolBlock(c, UsedSize(v)));
    forall r: nat | Index(v, r).blockId == 0 ensures Index(CanAlloc(c, v).0, r) == Index(v, r) {
      EvictUnloaded(c, v, FreePoolBlock(c, UsedSize(v)), r);
    }
  }

  lemma EvictUnloaded(c: Config, v: View, count: nat, r: nat)
    requires Inv(c, v) && Index(v, r).blockId == 0
    ensures Index(FreeUnlock(v, count), r) == Index(v, r)
  {
    hide Inv;
    KeysFacts(c, v);
    assert forall x | x in v.unlock :: x in v.heads;
  }

  /** Giving back the end of the free list. */
  lemma ReleaseKeepsAll(c: Config, v: View, rest: seq<nat>, ids: seq<nat>)
    requires Inv(c, v) && v.free == rest + ids
    ensures Inv(c, Release(v, ids).(free := rest)) && KeepsAll(v, Release(v, ids).(free := rest))
  {
    hide Inv, Release;
    var w := Release(v, ids).(free := rest);
    ReleaseOk(c, v, rest, ids);
    ReleaseZero(c, v, rest, ids);
    forall x | Pin(v, x) ensures Keeps(v, w, x) {
      PinFacts(c, v, x);
      assert Untouched(v, w, x);
    }
  }

  lemma ReleaseZero(c: Config, v: View, rest: seq<nat>, ids: seq<nat>)
    requires Inv(c, v) && v.free == rest + ids
    ensures SameZero(v, Release(v, ids).(free := rest))
    ensures Release(v, ids).lock == v.lock && Release(v, ids).fixed == v.fixed && Release(v, ids).table == v.table
    ensures Release(v, ids).unlock == v.unlock && Release(v, ids).threads == v.threads
  {
    assert forall x | x in ids :: x in v.free;
  }

  lemma DefragmentKeeps(c: Config, v: View, log: seq<Call>, places: map<nat, nat>)
    requires Inv(c, v) && LogOk(v.data, log) && OnlyUnlocked(v.unlock, log) && PlacesOk(v.adr, log, places)
    ensures Inv(c, MoveAll(v, log, places)) && KeepsAll(v, MoveAll(v, log, places))
  {
    hide Inv, LogOk, MoveAll, PlacesOk, OnlyUnlocked;
    var w := MoveAll(v, log, places);
    MoveAllOk(c, v, log, places);
    MoveZero(c, v, log, places);
    forall x | Pin(v, x) ensures Keeps(v, w, x) {
      PinFacts(c, v, x);
      hide Relocated;
      MovePinned(c, v, w, x);
    }
  }

  lemma MovePinned(c: Config, v: View, w: View, x: nat)
    requires Inv(c, v) && Inv(c, w) && Relocated(v, w) && Pin(v, x)
    ensures Keeps(v, w, x)
  {
    hide Inv;
    PinFacts(c, v, x);
    PinFacts(c, w, x);
    ThreadFacts(c, v);
    assert RelocatedBlock(v, w, v.heads[x].realBlock);
  }

  lemma MoveZero(c: Config, v: View, log: seq<Call>, places: map<nat, nat>)
    requires Inv(c, v) && LogOk(v.data, log) && OnlyUnlocked(v.unlock, log) && PlacesOk(v.adr, log, places)
    ensures SameZero(v, MoveAll(v, log, places))
  {
    hide Inv, LogOk, MoveAll, OnlyUnlocked, Disjoint, Relocated;
    var w := MoveAll(v, log, places);
    MoveAllOk(c, v, log, places);
    ZeroFacts(c, v);
    KeysFacts(c, v);
    KeysFacts(c, w);
    FromsUnlocked(v.unlock, log);
    KeptData(v.data, log, 0);
  }

  lemma {:induction false} FromsUnlocked(unlock: seq<nat>, log: seq<Call>)
    requires OnlyUnlocked(unlock, log)
    ensures forall x | x in Froms(log) :: x in unlock
  {
    if log != [] { FromsUnlocked(unlock, log[..|log| - 1]); }
  }

  // ---- locking ----

  /** A thread may get a slot at any time. */
  lemma InsertThread(c: Config, v: View, tid: nat)
    requires Inv(c, v) && tid != c.init
    ensures Inv(c, v.(threads := Inserted(v.threads, tid)))
    ensures KeepsAll(v, v.(threads := Inserted(v.threads, tid)))
  {
    hide Inv, KeepsAll, IdOk;
    var w := v.(threads := Inserted(v.threads, tid));
    ThreadFacts(c, v);
    InsertKeeps(v.threads, tid);
    assert forall k: nat :: BlocksOf(w.threads, k) == BlocksOf(v.threads, k);
    InsertThreadsOk(c, v.threads, tid);
    SameBlocksOf(c, v, w);
    KeepsRefl(c, v);
    SameHeads(v, v, w);
  }

  lemma SameHeads(u: View, v: View, w: View)
    requires KeepsAll(u, v) && w == v.(threads := w.threads)
    ensures KeepsAll(u, w)
  {
    forall x | Pin(u, x) ensures Keeps(u, w, x) { assert Keeps(u, v, x); }
  }

  lemma InsertThreadsOk(c: Config, s: seq<Slot>, tid: nat)
    requires ThreadsOk(c, s) && tid != c.init
    ensures ThreadsOk(c, Inserted(s, tid))
  {
    InsertKeeps(s, tid);
    var t := Inserted(s, tid);
    forall k, b | 0 <= k < |t| && b in BlocksOf(t, k) ensures 1 <= b < c.BlockCount() {
      assert b in BlocksOf(s, k);
    }
  }

  lemma SameBlocksOf(c: Config, v: View, w: View)
    requires Inv(c, v) && w == v.(threads := w.threads) && ThreadsOk(c, w.threads) && |w.threads| == |v.threads|
    requires forall k: nat :: BlocksOf(w.threads, k) == BlocksOf(v.threads, k)
    ensures Inv(c, w)
  {
    forall x | x in w.heads ensures IdOk(c, w, x) { assert IdOk(c, v, x); }
    forall r: nat | 1 <= r < |w.table| ensures BlockOk(c, w, r) { assert BlockOk(c, v, r); }
  }

  lemma LockLoadedKeeps(c: Config, v: View, r: nat, bit: nat, slot: Option<nat>, fix: bool)
    requires Inv(c, v) && 1 <= r < c.BlockCount() && bit < Arenas.BLOCK_PAGES && SlotOk(v, slot)
    requires Index(v, r).blockId != 0
    ensures KeepsAll(v, LockLoaded(v, r, bit, slot, fix))
  {
    hide Inv, LockLoaded, Locked, OnlyBlock, Keeps;
    var w := LockLoaded(v, r, bit, slot, fix);
    LockLoadedOk(c, v, r, bit, slot, fix);
    ZeroSame(c, v);
    ThreadFacts(c, v);
    LockedZero(v, w, r, bit, slot, fix);
    forall x | Pin(v, x) ensures Keeps(v, w, x) {
      LockedKeeps(c, v, w, r, bit, slot, fix, x);
    }
  }

  lemma LockedZero(v: View, w: View, r: nat, bit: nat, slot: Option<nat>, fix: bool)
    requires Locked(v, w, r, bit, slot, fix) && SameZero(v, v)
    ensures SameZero(v, w) && |w.table| == |v.table|
  {
  }

  lemma LockedKeeps(c: Config, v: View, w: View, r: nat, bit: nat, slot: Option<nat>, fix: bool, x: nat)
    requires Inv(c, v) && Inv(c, w) && 1 <= r < c.BlockCount() && Index(v, r).blockId != 0
    requires Locked(v, w, r, bit, slot, fix) && Pin(v, x)
    ensures Keeps(v, w, x)
  {
    hide Inv, IdOk, ThreadsKeep;
    PinFacts(c, v, x);
    BlockFacts(c, v, r);
    ThreadFacts(c, v);
    if x == Index(v, r).blockId {
      StillPinned(c, w, x, r);
    }
  }

  /** A loaded block with a locked page is pinned. */
  lemma StillPinned(c: Config, w: View, x: nat, r: nat)
    requires Inv(c, w) && 1 <= r < c.BlockCount() && Index(w, r).blockId == x != 0
    requires Index(w, r).pageLock != {} || Head(w, x).fixedBlock
    ensures Pin(w, x)
  {
    BlockFacts(c, w, r);
    if x in w.unlock { assert IdOk(c, w, x); } else if x !in w.fixed { InLock(w, x); }
  }

  lemma LockFreshKeeps(c: Config, v: View, r: nat, bit: nat, slot: Option<nat>, fix: bool, given: Grant)
    requires Inv(c, v) && 1 <= r < c.BlockCount() && bit < Arenas.BLOCK_PAGES && SlotOk(v, slot)
    requires Index(v, r).blockId == 0 && (v.free == [] ==> GrantOk(v, given))
    ensures KeepsAll(v, LockFresh(c, v, r, bit, slot, fix, given).0)
  {
    hide Inv, LockFresh, OnlyNew, Keeps, GrantOk;
    var w := LockFresh(c, v, r, bit, slot, fix, given).0;
    LockFreshOk(c, v, r, bit, slot, fix, given);
    ZeroSame(c, v);
    NewZero(v, w, NewId(v, given), r);
    ThreadFacts(c, v);
    forall x | Pin(v, x) ensures Keeps(v, w, x) {
      PinFacts(c, v, x);
      NewKeeps(c, v, w, NewId(v, given), r, x);
    }
  }

  lemma NewZero(v: View, w: View, x: nat, r: nat)
    requires OnlyNew(v, w, x, r) && SameZero(v, v)
    ensures SameZero(v, w) && |w.table| == |v.table|
  {
  }

  lemma NewKeeps(c: Config, v: View, w: View, x: nat, r: nat, y: nat)
    requires Inv(c, v) && OnlyNew(v, w, x, r) && 1 <= r && v.table[r].blockId == 0 && Pin(v, y)
    ensures Keeps(v, w, y)
  {
    hide Inv, ThreadsKeep, IdOk;
    PinFacts(c, v, y);
    NewOther(c, v, w, x, r, y);
  }
}
