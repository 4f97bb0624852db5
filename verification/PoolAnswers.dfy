/** What the calls of the pool do to its memory and its lists, in plain numbers and sequences. A file page has 8192 bytes,
    a block eight pages. */
module PoolAnswers {
  import opened Wrappers
  import opened Arenas
  import opened Threads
  import opened PoolModel
  import opened PoolInvariant
  import opened PoolMemory
  import opened PoolRuns
  import Moves
  import Sequences
  import PoolLocking
  import PoolSafety
  import PoolTheorems
  import PoolUnlocking

  // ---- eviction ----

  /** How many blocks can_alloc_block evicts: none below the limit, or while a block is free. */
  function EvictedCount(c: Config, v: View): (n: nat)
    requires c.Valid()
    ensures n <= |v.unlock|
  {
    if c.maxPool < 8192 * |c.file| && v.free == [] && c.maxPool <= 65536 * |v.adr| then
      var wanted := (65536 * |v.adr| - c.minPool) / 65536;
      var least := if wanted < 2 then 2 else wanted;
      if |v.unlock| < least then |v.unlock| else least
    else 0
  }

  /** The last n blocks of the unlock list lose their file blocks and join the end of the free list; nothing else changes. */
  ghost predicate Evicted(v: View, w: View, n: nat) {
    && n <= |v.unlock|
    && w.unlock == v.unlock[..|v.unlock| - n] && w.free == v.free + v.unlock[|v.unlock| - n..]
    && w.lock == v.lock && w.fixed == v.fixed && w.threads == v.threads && w.adr == v.adr && w.data == v.data
    && |w.table| == |v.table| && (forall r: nat :: Index(w, r).pageLock == Index(v, r).pageLock)
    && (forall r: nat :: Index(w, r).blockId == Unloaded(v, n, r))
  }

  /** The pool block of file block r after the last n blocks of the unlock list were evicted. */
  function Unloaded(v: View, n: nat, r: nat): nat
    requires n <= |v.unlock|
  {
    if Index(v, r).blockId in v.unlock[|v.unlock| - n..] then 0 else Index(v, r).blockId
  }

  lemma NotListed(c: Config, v: View)
    requires Inv(c, v)
    ensures 0 !in v.unlock
  {
  }

  lemma FreeUnlockAnswer(v: View, count: nat)
    ensures Evicted(v, FreeUnlock(v, count), if count < |v.unlock| then count else |v.unlock|)
  {
    var n := if count < |v.unlock| then |v.unlock| - count else 0;
    assert v.unlock == v.unlock[..n] + v.unlock[n..];
  }

  lemma NoneEvicted(v: View)
    ensures Evicted(v, v, 0)
  {
    assert v.unlock[..|v.unlock| - 0] == v.unlock && v.unlock[|v.unlock| - 0..] == [] && v.free + [] == v.free;
  }

  /** can_alloc_block evicts exactly so many blocks, the last ones of the unlock list, and says yes if a block is free then. */
  lemma CanAllocAnswer(c: Config, v: View)
    requires c.Valid()
    ensures Evicted(v, CanAlloc(c, v).0, EvictedCount(c, v))
    ensures CanAlloc(c, v).0.free != [] ==> CanAlloc(c, v).1
  {
    hide FreeUnlock, Evicted;
    NoneEvicted(v);
    FreeUnlockAnswer(v, FreePoolBlock(c, UsedSize(v)));
  }

  // ---- lock_page_fixed ----

  /** The block of the page has to be read. */
  predicate Loads(c: Config, v: View, page: nat) {
    1 <= page / 8 < c.BlockCount() && Index(v, page / 8).blockId == 0
  }

  /** Below its limit lock_page_fixed unloads no file block; at or above it, it unloads as many as can_alloc_block evicts,
      the last of the unlock list, and only if it has to load a block. The block is read into the first free one, else
      into the first that was evicted; a fresh one is taken only if there is neither. */
  lemma LockAnswer(c: Config, v: View, tid: nat, page: nat, fix: bool, given: Grant)
    requires Inv(c, v) && (NeedsGrant(c, v, tid, page) ==> GrantOk(v, given))
    ensures var (w, res) := Lock(c, v, tid, page, fix, given);
      var n := if Loads(c, v, page) && res.PageAt? then EvictedCount(c, v) else 0;
      && (forall r: nat | r != page / 8 :: Index(w, r).blockId == Unloaded(v, n, r))
      && (!Loads(c, v, page) ==> Index(w, page / 8).blockId == Index(v, page / 8).blockId)
      && (Loads(c, v, page) && res.PageAt? ==> Index(w, page / 8).blockId == ReadInto(c, v, given))
      && |w.adr| == |v.adr| + if Loads(c, v, page) && res.PageAt? && v.free == [] && n == 0 then 1 else 0
  {
    hide Inv, LockLoaded, LockFresh, CanAlloc, GrantOk, Inserted, InsertedAt, Evicted, PoolSafety.KeepsAll;
    var r, bit := page / 8, page % 8;
    PoolUnlocking.ThreadFacts(c, v);
    KeysFacts(c, v);
    NoneEvicted(v);
    if 1 <= r < c.BlockCount() && (tid == c.init || InsertedAt(v.threads, tid).Some?) {
      var v1, slot := WithThread(c, v, tid), SlotOf(c, v, tid);
      WithThreadOk(c, v, tid);
      if Index(v, r).blockId != 0 {
        LoadedTable(c, v1, r, bit, slot, fix);
      } else {
        CanAllocTrue(c, v1, r);
        PoolSafety.CanAllocKeeps(c, v1);
        CanAllocAnswer(c, v1);
        SameFree(c, v, v1);
        FreshTable(c, v, v1, r, bit, slot, fix, given);
      }
    }
  }

  /** The pool block that a file block is read into. */
  function ReadInto(c: Config, v: View, given: Grant): nat
    requires c.Valid()
  {
    if v.free != [] then v.free[0]
    else if EvictedCount(c, v) > 0 then v.unlock[|v.unlock| - EvictedCount(c, v)]
    else given.id
  }

  lemma LoadedTable(c: Config, v: View, r: nat, bit: nat, slot: Option<nat>, fix: bool)
    requires Inv(c, v) && 1 <= r < c.BlockCount() && bit < BLOCK_PAGES && PoolLocking.SlotOk(v, slot) && Index(v, r).blockId != 0
    ensures var w := LockLoaded(v, r, bit, slot, fix);
      w.adr == v.adr && forall b: nat :: Index(w, b).blockId == Index(v, b).blockId
  {
    hide Inv, LockLoaded, SameLists, ThreadsKeep;
    PoolLocking.LockLoadedOk(c, v, r, bit, slot, fix);
    PoolUnlocking.ThreadFacts(c, v);
  }

  lemma FreshTable(c: Config, v: View, v1: View, r: nat, bit: nat, slot: Option<nat>, fix: bool, given: Grant)
    requires Inv(c, v) && Inv(c, v1) && v1 == v.(threads := v1.threads) && Inv(c, CanAlloc(c, v1).0)
    requires 1 <= r < c.BlockCount() && bit < BLOCK_PAGES && PoolLocking.SlotOk(CanAlloc(c, v1).0, slot) && Index(v, r).blockId == 0
    requires Evicted(v1, CanAlloc(c, v1).0, EvictedCount(c, v1)) && c.Valid()
    requires CanAlloc(c, v1).0.free == [] ==> GrantOk(v, given)
    ensures var w := LockFresh(c, CanAlloc(c, v1).0, r, bit, slot, fix, given).0;
      && (forall b: nat | b != r :: Index(w, b).blockId == Unloaded(v, EvictedCount(c, v), b))
      && Index(w, r).blockId == ReadInto(c, v, given)
      && |w.adr| == |v.adr| + if v.free == [] && EvictedCount(c, v) == 0 then 1 else 0
  {
    hide Inv, LockFresh, CanAlloc, OnlyNew, GrantOk;
    var u, n := CanAlloc(c, v1).0, EvictedCount(c, v);
    NotListed(c, v);
    assert Index(u, r).blockId == Unloaded(v1, n, r) == 0;
    GrantSame(v, u, given);
    LockFreshOk(c, u, r, bit, slot, fix, given);
    PoolUnlocking.ThreadFacts(c, u);
    NewTable(u, LockFresh(c, u, r, bit, slot, fix, given).0, NewId(u, given), r);
    NewCount(u, LockFresh(c, u, r, bit, slot, fix, given).0, given, r);
  }

  lemma GrantSame(v: View, w: View, given: Grant)
    requires w.adr == v.adr
    ensures GrantOk(v, given) <==> GrantOk(w, given)
  {
  }

  lemma NewTable(v: View, w: View, x: nat, r: nat)
    requires OnlyNew(v, w, x, r)
    ensures forall b: nat | b != r :: Index(w, b) == Index(v, b)
  {
  }

  lemma NewCount(v: View, w: View, given: Grant, r: nat)
    requires OnlyNew(v, w, NewId(v, given), r) && (v.free == [] ==> GrantOk(v, given)) && (v.free != [] ==> w.adr == v.adr)
    ensures |w.adr| == |v.adr| + if v.free == [] then 1 else 0
  {
    if v.free == [] { assert w.adr.Keys == v.adr.Keys + {given.id}; }
  }

  // ---- free_unlocked ----

  /** free_unlocked unloads exactly the unlocked blocks; they become free, or with decommit they and all free blocks go
      back to the allocator. */
  lemma FreeUnlockedAnswer(c: Config, v: View, decommit: bool)
    requires Inv(c, v)
    ensures var w := FreeUnlocked(c, v, decommit);
      && w.unlock == [] && w.lock == v.lock && w.fixed == v.fixed && w.threads == v.threads
      && (forall r: nat :: Index(w, r).blockId == if Index(v, r).blockId in v.unlock then 0 else Index(v, r).blockId)
      && w.free == (if decommit then [] else v.free + v.unlock)
      && |w.adr| == |v.adr| - if decommit then |v.free| + |v.unlock| else 0
  {
    hide Inv, Release, FreeUnlock;
    var u := FreeUnlock(v, c.BlockCount());
    PoolTheorems.UsedBlocks(c, v);
    FreeUnlockAnswer(v, c.BlockCount());
    assert v.unlock[..|v.unlock| - |v.unlock|] == [] && v.unlock[|v.unlock| - |v.unlock|..] == v.unlock;
    PoolSafety.FreeUnlockKeeps(c, v, c.BlockCount());
    ReleaseOk(c, u, [], u.free);
    PoolSafety.ReleaseZero(c, u, [], u.free);
    ReleaseTable(u, u.free);
  }

  lemma ReleaseTable(v: View, ids: seq<nat>)
    ensures var w := Release(v, ids);
      w.table == v.table && w.lock == v.lock && w.unlock == v.unlock && w.fixed == v.fixed && w.threads == v.threads
  {
  }

  // ---- async_release ----

  /** The first half chooses half of the blocks that are free then, but one at least if there is one. */
  lemma AsyncChooseAnswer(c: Config, v: View)
    requires c.Valid()
    ensures var (w, n) := AsyncChoose(c, v); var free := |v.free| + EvictedCount(c, v);
      && Evicted(v, w, EvictedCount(c, v)) && |w.free| == free
      && n == if free == 0 then 0 else if free < 4 then 1 else free / 2
  {
    hide CanAlloc;
    CanAllocAnswer(c, v);
  }

  /** The second half gives so many of the last free blocks back to the allocator, or all if there are fewer. */
  lemma AsyncReleaseAnswer(c: Config, v: View, count: nat)
    requires Inv(c, v)
    ensures var w := AsyncRelease(v, count); var n := if count < |v.free| then count else |v.free|;
      && |w.adr| == |v.adr| - n && w.free == v.free[..|v.free| - n]
      && w.table == v.table && w.lock == v.lock && w.unlock == v.unlock && w.fixed == v.fixed && w.threads == v.threads
      && forall x | x in v.adr && x !in v.free[|v.free| - n..] :: x in w.adr && w.adr[x] == v.adr[x]
  {
    hide Inv;
    var n := if count < |v.free| then |v.free| - count else 0;
    assert v.free == v.free[..n] + v.free[n..];
    ReleaseOk(c, v, v.free[..n], v.free[n..]);
  }

  /** Both halves with no call in between: half of the free blocks go back, but one at least if there is one. */
  lemma AsyncAnswer(c: Config, v: View)
    requires Inv(c, v)
    ensures var (u, n) := AsyncChoose(c, v); var free := |v.free| + EvictedCount(c, v);
      |AsyncRelease(u, n).adr| == |v.adr| - if free == 0 then 0 else if free < 4 then 1 else free / 2
  {
    hide Inv, AsyncRelease, CanAlloc;
    KeysFacts(c, v);
    PoolSafety.CanAllocKeeps(c, v);
    AsyncChooseAnswer(c, v);
    var (u, n) := AsyncChoose(c, v);
    AsyncReleaseAnswer(c, u, n);
  }

  // ---- defragment ----

  /** defragment gives all free blocks back first, those it has evicted included; the moves change no numbers. */
  lemma DefragmentAnswer(c: Config, v: View, log: seq<Moves.Call>, places: map<nat, nat>)
    requires Inv(c, v) && Enabled(c, v, Compact(log, places))
    ensures var w := Defragment(c, v, log, places); var n := EvictedCount(c, v);
      && w.free == [] && |w.adr| == |v.adr| - |v.free| - n && |w.unlock| == |v.unlock| - n
      && w.lock == v.lock && w.fixed == v.fixed && w.threads == v.threads
      && forall r: nat | r < |v.table| :: Index(w, r).blockId == 0 <==> Unloaded(v, n, r) == 0
  {
    hide Inv, CanAlloc, Release, Defragment, BeforeDefragment, PoolSafety.KeepsAll, Moves.LogOk, OnlyUnlocked, PlacesOk;
    KeysFacts(c, v);
    BeforeAnswer(c, v);
    BeforeDefragmentOk(c, v);
    DefragmentInvisible(c, v, log, places);
    var u, w := BeforeDefragment(c, v), Defragment(c, v, log, places);
    PoolTheorems.UsedBlocks(c, u);
    PoolTheorems.UsedBlocks(c, w);
    forall r: nat | r < |v.table| ensures Index(w, r).blockId == 0 <==> Index(u, r).blockId == 0 {
      assert RelocatedBlock(u, w, r);
    }
  }

  lemma BeforeAnswer(c: Config, v: View)
    requires Inv(c, v)
    ensures var w := BeforeDefragment(c, v); var n := EvictedCount(c, v);
      && w.free == [] && |w.adr| == |v.adr| - |v.free| - n && |w.unlock| == |v.unlock| - n
      && w.lock == v.lock && w.fixed == v.fixed && w.threads == v.threads && |w.table| == |v.table|
      && forall r: nat :: Index(w, r).blockId == Unloaded(v, n, r)
  {
    hide Inv, CanAlloc, Release;
    KeysFacts(c, v);
    var u := CanAlloc(c, v).0;
    CanAllocAnswer(c, v);
    PoolSafety.CanAllocKeeps(c, v);
    ReleaseTable(u, u.free);
    ReleaseOk(c, u, [], u.free);
  }

  // ---- the order of the unlock list ----

  /** A block that unlock_page unlocks goes to the head of the unlock list: those unlocked longest are evicted first. */
  lemma UnlockedFirst(c: Config, v: View, tid: nat, page: nat)
    ensures var (w, res) := Unlock(c, v, tid, page);
      w.unlock == if res == Some(true) then [Index(v, page / 8).blockId] + v.unlock else v.unlock
  {
  }

  /** A block that lock_page_fixed locks or fixes goes to the head of its list. */
  lemma LockedFirst(v: View, r: nat, bit: nat, slot: Option<nat>, fix: bool)
    requires !Head(v, Index(v, r).blockId).fixedBlock
    ensures var w, x := LockLoaded(v, r, bit, slot, fix), Index(v, r).blockId;
      if slot.None? || fix then w.fixed == [x] + v.fixed else w.lock != [] && w.lock[0] == x && w.fixed == v.fixed
  {
    hide Sequences.Minus, WithBlocks;
  }

  /** Blocks that a compaction has moved are unlocked last, so to say: they go before all others. */
  lemma {:induction false} MovedFirst(c: Config, v: View, log: seq<Moves.Call>, places: map<nat, nat>)
    requires Inv(c, v) && Moves.LogOk(v.data, log) && OnlyUnlocked(v.unlock, log) && PlacesOk(v.adr, log, places)
    ensures TosFirst(MoveAll(v, log, places).unlock, Moves.Tos(log))
  {
    hide Inv, Relocated, Disjoint, Moves.Move;
    if log == [] {
      assert forall x | x in v.unlock :: x !in Moves.Tos(log);
    } else {
      var e, prev := log[|log| - 1], log[..|log| - 1];
      assert forall k | 0 <= k < |prev| :: prev[k] == log[k];
      MovedFirst(c, v, prev, places);
      MoveAllOk(c, v, prev, places);
      if e.moved { NotUnlocked(c, MoveAll(v, prev, places), e.to); OneMoreFirst(MoveAll(v, prev, places).unlock, Moves.Tos(prev), e.from, e.to); }
    }
  }

  lemma NotUnlocked(c: Config, v: View, x: nat)
    requires Inv(c, v) && x !in v.data
    ensures x !in v.unlock
  {
  }

  ghost predicate TosFirst(s: seq<nat>, tos: set<nat>) {
    forall i, j | 0 <= i < j < |s| && s[j] in tos :: s[i] in tos
  }

  lemma OneMoreFirst(s: seq<nat>, tos: set<nat>, from: nat, to: nat)
    requires TosFirst(s, tos) && to !in s
    ensures TosFirst([to] + Sequences.Minus(s, from), tos + {to})
  {
    MinusFirst(s, tos, from);
    MinusInside(s, from);
    var t, u := Sequences.Minus(s, from), [to] + Sequences.Minus(s, from);
    forall i, j | 0 <= i < j < |u| && u[j] in tos + {to} ensures u[i] in tos + {to} {
      assert u[j] == t[j - 1] && t[j - 1] in s;
      if i > 0 { assert u[i] == t[i - 1]; }
    }
  }

  lemma {:induction false} MinusInside(s: seq<nat>, x: nat)
    ensures forall y | y in Sequences.Minus(s, x) :: y in s
  {
    if s != [] { MinusInside(s[1..], x); }
  }

  lemma {:induction false} MinusFirst(s: seq<nat>, tos: set<nat>, x: nat)
    requires TosFirst(s, tos)
    ensures TosFirst(Sequences.Minus(s, x), tos)
  {
    if s != [] {
      MinusFirst(s[1..], tos, x);
      MinusInside(s[1..], x);
      if s[0] != x {
        var r, t := Sequences.Minus(s[1..], x), Sequences.Minus(s, x);
        forall i, j | 0 <= i < j < |t| && t[j] in tos ensures t[i] in tos {
          assert t[j] == r[j - 1] && r[j - 1] in s[1..];
          if i == 0 {
            var k :| 0 <= k < |s[1..]| && s[1..][k] == t[j];
            assert s[k + 1] == t[j];
          }
        }
      }
    }
  }

  lemma {:induction false} BlockFirst(c: Config, v: View, k: nat, r: nat, i: nat)
    ensures var (w, done) := ThreadUnlockBlock(c, v, k, r, i);
      if done then |w.unlock| == |v.unlock| + 1 && w.unlock[1..] == v.unlock else w.unlock == v.unlock
    decreases c.PageCount(r) - i
  {
    if i < c.PageCount(r) {
      var (w, done) := ThreadUnlockPage(v, k, r, i);
      if !done { BlockFirst(c, w, k, r, i + 1); }
    }
  }

  /** unlock_thread puts the blocks it unlocks before those that were unlocked already. */
  lemma {:induction false} BlocksFirst(c: Config, v: View, k: nat, mask: set<nat>, n: nat)
    ensures var (w, count) := ThreadUnlockBlocks(c, v, k, mask, n);
      |w.unlock| == |v.unlock| + count && w.unlock[count..] == v.unlock
  {
    if n > 0 {
      hide ThreadUnlockBlock;
      var (w, count) := ThreadUnlockBlocks(c, v, k, mask, n - 1);
      BlocksFirst(c, v, k, mask, n - 1);
      BlockFirst(c, w, k, n - 1, 0);
      var u := ThreadUnlockBlock(c, w, k, n - 1, 0).0;
      if |u.unlock| == |w.unlock| + 1 { assert u.unlock[count + 1..] == u.unlock[1..][count..]; }
    }
  }

  lemma ThreadFirst(c: Config, v: View, tid: nat, remove: bool)
    ensures var (w, count) := UnlockThread(c, v, tid, remove);
      |w.unlock| == |v.unlock| + count && w.unlock[count..] == v.unlock
  {
    hide ThreadUnlockBlocks;
    var k := IndexOf(v.threads, tid);
    BlocksFirst(c, v, k, BlocksOf(v.threads, k), c.BlockCount());
  }
}
