/** Loading, evicting, releasing and moving blocks. */
module PoolMemory {
  import opened Wrappers
  import opened Sequences
  import opened Arenas
  import opened Moves
  import opened BlockLists
  import opened PoolModel
  import opened PoolInvariant
  import PoolLocking
  import opened PoolUnlocking

  // ---- eviction ----

  /** Pool block x and the entry of its file block are the same in both states. */
  ghost predicate Untouched(v: View, w: View, x: nat)
    requires x in v.heads
  {
    && x in w.heads && w.heads[x] == v.heads[x]
    && x in v.adr && x in w.adr && w.adr[x] == v.adr[x]
    && x in v.data && x in w.data && w.data[x] == v.data[x]
    && Index(w, v.heads[x].realBlock) == Index(v, v.heads[x].realBlock)
  }

  /** What free_unlock_blocks changes: the blocks ids, which all come from the unlock list, lose their file blocks. */
  ghost predicate Evicts(v: View, w: View, ids: seq<nat>) {
    && w == v.(table := EvictTable(v.table, ids), heads := EvictHeads(v.heads, ids), unlock := w.unlock, free := v.free + ids)
    && v.unlock == w.unlock + ids
  }

  lemma FreeUnlockOk(c: Config, v: View, count: nat)
    requires Inv(c, v)
    ensures Inv(c, FreeUnlock(v, count))
    ensures forall x | x in v.lock || x in v.fixed :: Untouched(v, FreeUnlock(v, count), x)
    ensures forall x | x in v.heads :: x in FreeUnlock(v, count).heads
              && FreeUnlock(v, count).heads[x].pageLockThread == v.heads[x].pageLockThread
              && FreeUnlock(v, count).heads[x].fixedBlock == v.heads[x].fixedBlock
  {
    var n := if count < |v.unlock| then |v.unlock| - count else 0;
    var ids := v.unlock[n..];
    var w := FreeUnlock(v, count);
    assert v.unlock == v.unlock[..n] + ids;
    EvictsOk(c, v, w, ids);
    hide Inv, IdOk;
    forall x | x in v.lock || x in v.fixed ensures Untouched(v, w, x) {
      LockedNotEvicted(c, v, w, ids, x);
    }
  }

  lemma EvictsOk(c: Config, v: View, w: View, ids: seq<nat>)
    requires Inv(c, v) && Evicts(v, w, ids)
    ensures Inv(c, w)
  {
    EvictLists(v, w, ids);
    forall x | x in w.heads ensures IdOk(c, w, x) {
      EvictId(c, v, w, ids, x);
    }
    forall r: nat | 1 <= r < |w.table| ensures BlockOk(c, w, r) {
      EvictBlock(c, v, w, ids, r);
    }
    ZeroNotListed(v, ids);
  }

  lemma EvictLists(v: View, w: View, ids: seq<nat>)
    requires Partition(v) && Evicts(v, w, ids)
    ensures Partition(w)
    ensures forall x :: x in w.free <==> x in v.free || x in ids
    ensures forall x :: x in v.unlock <==> x in w.unlock || x in ids
    ensures forall x | x in w.unlock :: x !in ids
  {
    assert w.heads.Keys == v.heads.Keys;
    PartsDistinct(w.unlock, ids);
    JoinDistinct(v.free, ids);
  }

  lemma ZeroNotListed(v: View, ids: seq<nat>)
    requires Partition(v) && 0 !in v.heads && forall x | x in ids :: x in v.unlock
    ensures 0 !in ids
  {
  }

  lemma EvictId(c: Config, v: View, w: View, ids: seq<nat>, x: nat)
    requires Inv(c, v) && Evicts(v, w, ids) && x in v.heads
    ensures x in w.heads && IdOk(c, w, x)
  {
    hide Inv, Shows, Partition;
    IdFacts(c, v, x);
    ThreadFacts(c, v);
    EvictLists'(c, v, w, ids);
    if x in ids {
      UnlockedIff(c, v, x);
      assert forall i: nat :: Bits(w.heads[x], i) == Bits(v.heads[x], i);
    }
  }

  lemma EvictLists'(c: Config, v: View, w: View, ids: seq<nat>)
    requires Inv(c, v) && Evicts(v, w, ids)
    ensures Partition(w) && 0 !in ids
    ensures forall x :: x in w.free <==> x in v.free || x in ids
    ensures forall x :: x in v.unlock <==> x in w.unlock || x in ids
    ensures forall x | x in ids :: x !in v.fixed && x !in v.lock && x !in v.free
  {
    EvictLists(v, w, ids);
    ZeroNotListed(v, ids);
  }

  lemma EvictBlock(c: Config, v: View, w: View, ids: seq<nat>, r: nat)
    requires Inv(c, v) && Evicts(v, w, ids) && 1 <= r < |v.table|
    ensures r < |w.table| && BlockOk(c, w, r)
  {
    hide Inv, Partition, Shows;
    EvictLists'(c, v, w, ids);
    ThreadFacts(c, v);
    if Index(v, r).blockId != 0 {
      BlockFacts(c, v, r);
    } else {
      UnloadedFacts(c, v, r);
    }
  }

  lemma UnloadedFacts(c: Config, v: View, r: nat)
    requires Inv(c, v) && 1 <= r < |v.table| && Index(v, r).blockId == 0
    ensures v.table[r] == BlockIndex(0, {})
  {
    assert BlockOk(c, v, r);
  }

  lemma LockedNotEvicted(c: Config, v: View, w: View, ids: seq<nat>, x: nat)
    requires Inv(c, v) && Evicts(v, w, ids) && (x in v.lock || x in v.fixed)
    ensures x in v.heads && Untouched(v, w, x)
  {
    assert x in v.heads;
    EvictLists'(c, v, w, ids);
    IdFacts(c, v, x);
  }

  // ---- loading ----

  /** What the allocator promises about a block it gives. */
  ghost predicate GrantOk(v: View, g: Grant) {
    && g.id != 0 && g.id !in v.adr && g.adr != 0
    && forall x | x in v.adr :: v.adr[x] + BLOCK_SIZE <= g.adr || g.adr + BLOCK_SIZE <= v.adr[x]
  }

  function NewId(v: View, g: Grant): nat { if v.free != [] then v.free[0] else g.id }

  /** The head of a block that was just read for file block r. */
  function NewHead(r: nat, bit: nat, slot: Option<nat>, fix: bool): BlockHead {
    if slot.None? || fix then BlockHead(r, true, NO_LOCKS)
    else WithBits(BlockHead(r, false, NO_LOCKS), bit, {slot.value})
  }

  /** From v to w pool block x is put to use for file block r, and nothing else changes. */
  ghost predicate OnlyNew(v: View, w: View, x: nat, r: nat) {
    && x != 0 && (x in v.free || x !in v.adr)
    && w.heads == v.heads[x := Head(w, x)] && x in w.heads
    && r < |v.table| && w.table == v.table[r := Index(w, r)]
    && w.adr.Keys == v.adr.Keys + {x} && (forall y | y in v.adr :: w.adr[y] == v.adr[y])
    && w.data.Keys == v.data.Keys + {x} && (forall y | y in v.data && y != x :: w.data[y] == v.data[y])
    && SameLists(v, w, x)
    && |w.threads| == |v.threads| && ThreadsKeep(v.threads, w.threads, r)
  }

  lemma NewBlock(c: Config, v: View, w: View, x: nat, r: nat)
    requires Inv(c, v) && OnlyNew(v, w, x, r) && 1 <= r && v.table[r].blockId == 0
    requires |Head(w, x).pageLockThread| == BLOCK_PAGES && x in w.data && |w.data[x]| == BLOCK_PAGES
    requires Index(w, r).blockId == x
    requires Partition(w) && x !in w.free && ThreadsOk(c, w.threads) && Disjoint(w.adr)
    requires IdOk(c, w, x) && r < |w.table| && BlockOk(c, w, r)
    requires |w.adr| <= c.BlockCount()
    ensures Inv(c, w)
  {
    hide IdOk, BlockOk, Partition, ThreadsOk, Disjoint, SameLists, ThreadsKeep, Shows;
    forall y | y in w.heads ensures IdOk(c, w, y) {
      if y != x { NewOther(c, v, w, x, r, y); }
    }
    forall b: nat | 1 <= b < |w.table| ensures BlockOk(c, w, b) {
      if b != r { NewOtherBlock(c, v, w, x, r, b); }
    }
  }

  /** A block keeps its order if nothing about it changes and no thread forgets its file block. */
  lemma IdFrame(c: Config, v: View, w: View, y: nat)
    requires y in v.heads && y in w.heads && w.heads[y] == v.heads[y] && IdOk(c, v, y)
    requires Index(w, v.heads[y].realBlock) == Index(v, v.heads[y].realBlock)
    requires y in v.data && y in w.data && w.data[y] == v.data[y]
    requires (y in w.lock <==> y in v.lock) && (y in w.unlock <==> y in v.unlock)
    requires (y in w.free <==> y in v.free) && (y in w.fixed <==> y in v.fixed)
    requires forall k: nat :: v.heads[y].realBlock in BlocksOf(v.threads, k) ==> v.heads[y].realBlock in BlocksOf(w.threads, k)
    ensures IdOk(c, w, y)
  {
    hide Shows;
  }

  lemma NewOther(c: Config, v: View, w: View, x: nat, r: nat, y: nat)
    requires Inv(c, v) && OnlyNew(v, w, x, r) && 1 <= r && v.table[r].blockId == 0
    requires y in v.heads && y != x
    ensures y in w.heads && IdOk(c, w, y) && Untouched(v, w, y)
  {
    hide Inv, Partition, Shows, IdOk, Disjoint;
    IdFacts(c, v, y);
    KeysFacts(c, v);
    assert v.heads[y].realBlock != r;
    IdFrame(c, v, w, y);
  }

  lemma KeysFacts(c: Config, v: View)
    requires Inv(c, v)
    ensures v.heads.Keys == v.adr.Keys - {0} && v.data.Keys == v.adr.Keys && 0 in v.adr && Partition(v) && Disjoint(v.adr)
    ensures forall x | x in v.data :: |v.data[x]| == BLOCK_PAGES
    ensures c.Valid()
  {
  }

  lemma NewOtherBlock(c: Config, v: View, w: View, x: nat, r: nat, b: nat)
    requires Inv(c, v) && OnlyNew(v, w, x, r) && 1 <= b < |v.table| && b != r && x !in w.free
    ensures b < |w.table| && BlockOk(c, w, b)
  {
    hide Inv, Partition, Shows, BlockOk, ThreadsKeep;
    ThreadFacts(c, v);
    KeysFacts(c, v);
    if Index(v, b).blockId != 0 { BlockFacts(c, v, b); } else { UnloadedFacts(c, v, b); }
    BlockKnown(c, v, b);
    BlockFrame(c, v, w, b);
  }

  lemma BlockKnown(c: Config, v: View, b: nat)
    requires Inv(c, v) && 1 <= b < |v.table|
    ensures BlockOk(c, v, b)
  {
  }

  /** An entry keeps its order if its pool block is the same. */
  lemma BlockFrame(c: Config, v: View, w: View, b: nat)
    requires b < |v.table| && b < |w.table| && BlockOk(c, v, b) && w.table[b] == v.table[b]
    requires v.table[b].blockId != 0 ==> v.table[b].blockId in v.heads && v.table[b].blockId in w.heads && v.table[b].blockId !in w.free
    requires v.table[b].blockId != 0 ==> w.heads[v.table[b].blockId] == v.heads[v.table[b].blockId]
    ensures BlockOk(c, w, b)
  {
  }

  lemma ReadShows(c: Config, was: Block, r: nat)
    ensures Shows(c, ReadBlock(c, was, r), r) && |ReadBlock(c, was, r)| == BLOCK_PAGES
  {
  }

  /** Pool blocks that hold file blocks are fewer than the file blocks while one of these is not loaded. */
  lemma RoomForOne(c: Config, v: View, r: nat)
    requires Inv(c, v) && 1 <= r < c.BlockCount() && Index(v, r).blockId == 0 && v.free == []
    ensures |v.adr| < c.BlockCount()
  {
    hide Inv, IdOk, Partition, ThreadsOk, BlockOk, Shows, Disjoint, Config.BlockCount, Reals;
    KeysFacts(c, v);
    forall x | x in v.heads.Keys ensures RealOk(c, v, x, r) {
      IdFacts(c, v, x);
    }
    RealsDistinct(c, v, r);
    assert v.adr.Keys == v.heads.Keys + {0};
    TwoMore(Reals(v.heads, v.heads.Keys), r);
    BelowCard(Reals(v.heads, v.heads.Keys) + {0} + {r}, c.BlockCount());
  }

  lemma TwoMore(s: set<nat>, r: nat)
    requires 0 !in s && r !in s && r != 0
    ensures |s + {0} + {r}| == |s| + 2
    ensures forall b | b in s + {0} + {r} :: b in s || b == 0 || b == r
  {
  }

  ghost function Reals(h: map<nat, BlockHead>, s: set<nat>): set<nat>
    requires s <= h.Keys
  {
    set x | x in s :: h[x].realBlock
  }

  lemma RealsDistinct(c: Config, v: View, r: nat)
    requires forall x | x in v.heads.Keys :: RealOk(c, v, x, r)
    ensures |Reals(v.heads, v.heads.Keys)| == |v.heads| && 0 !in Reals(v.heads, v.heads.Keys) && r !in Reals(v.heads, v.heads.Keys)
    ensures forall b | b in Reals(v.heads, v.heads.Keys) :: b < c.BlockCount()
  {
    ImageCard(v.heads, v.heads.Keys);
  }

  ghost predicate RealOk(c: Config, v: View, x: nat, r: nat)
    requires x in v.heads
  {
    1 <= v.heads[x].realBlock < c.BlockCount() && v.heads[x].realBlock != r && Index(v, v.heads[x].realBlock).blockId == x
  }

  lemma {:induction false} ImageCard(h: map<nat, BlockHead>, s: set<nat>)
    requires s <= h.Keys
    requires forall x, y | x in s && y in s && h[x].realBlock == h[y].realBlock :: x == y
    ensures |Reals(h, s)| == |s|
  {
    if s != {} {
      var x :| x in s;
      ImageCard(h, s - {x});
      forall b ensures b in Reals(h, s) <==> b in Reals(h, s - {x}) + {h[x].realBlock} {
        if b in Reals(h, s) {
          var y :| y in s && h[y].realBlock == b;
          assert y == x || y in s - {x};
        }
      }
      assert Reals(h, s) == Reals(h, s - {x}) + {h[x].realBlock};
    }
  }

  lemma {:induction false} BelowCard(s: set<nat>, n: nat)
    requires forall b | b in s :: b < n
    ensures |s| <= n
  {
    if n == 0 {
      assert s == {};
    } else {
      BelowCard(s - {n - 1}, n - 1);
    }
  }

  /** Loading file block r: it is read into a free block, or into the block the allocator gives. */
  lemma LockFreshOk(c: Config, v: View, r: nat, bit: nat, slot: Option<nat>, fix: bool, given: Grant)
    requires Inv(c, v) && 1 <= r < c.BlockCount() && bit < BLOCK_PAGES && PoolLocking.SlotOk(v, slot)
    requires Index(v, r).blockId == 0 && (v.free == [] ==> GrantOk(v, given))
    ensures LockFresh(c, v, r, bit, slot, fix, given).1 == NewId(v, given)
    ensures Inv(c, LockFresh(c, v, r, bit, slot, fix, given).0)
    ensures OnlyNew(v, LockFresh(c, v, r, bit, slot, fix, given).0, NewId(v, given), r)
    ensures Index(LockFresh(c, v, r, bit, slot, fix, given).0, r) == BlockIndex(NewId(v, given), {bit})
    ensures Head(LockFresh(c, v, r, bit, slot, fix, given).0, NewId(v, given)) == NewHead(r, bit, slot, fix)
    ensures v.free != [] ==> LockFresh(c, v, r, bit, slot, fix, given).0.adr == v.adr
  {
    hide Inv, Partition, ThreadsOk, BlockOk, IdOk, Shows, Disjoint, SameLists, ReadBlock, LockFresh, GrantOk,
      Config.BlockCount, Config.PageCount, Config.Valid, InitMasks;
    var x := NewId(v, given);
    var w := LockFresh(c, v, r, bit, slot, fix, given).0;
    ThreadFacts(c, v);
    KeysFacts(c, v);
    UnloadedFacts(c, v, r);
    GrantFacts(c, v, given);
    NoOldLocks(c, v, r, given);
    FreshFields(c, v, r, bit, slot, fix, given);
    NewLists(c, v, w, x, slot, fix, given);
    ReadShows(c, if v.free != [] then v.data[x] else given.bytes, r);
    NewPlaces(c, v, w, r, given);
    if slot.Some? { PoolLocking.AddBlock(c, v.threads, slot.value, r); }
    NewIdOk(c, w, x, r, bit, slot, fix);
    NewIsOnly(c, v, w, x, r, bit, slot, fix, given);
    hide NewHead, OnlyNew;
    NewBlock(c, v, w, x, r);
  }

  lemma NewIsOnly(c: Config, v: View, w: View, x: nat, r: nat, bit: nat, slot: Option<nat>, fix: bool, given: Grant)
    requires x == NewId(v, given) && x != 0 && v.data.Keys == v.adr.Keys && PoolLocking.SlotOk(v, slot)
    requires if v.free != [] then x in v.free && x in v.adr else x !in v.adr
    requires w.heads == v.heads[x := NewHead(r, bit, slot, fix)]
    requires r < |v.table| && w.table == v.table[r := BlockIndex(x, {bit})]
    requires w.adr == if v.free != [] then v.adr else v.adr[given.id := given.adr]
    requires x in w.data && w.data == v.data[x := w.data[x]]
    requires w.threads == if slot.None? || fix then v.threads else WithBlocks(v.threads, slot.value, BlocksOf(v.threads, slot.value) + {r})
    requires SameLists(v, w, x)
    ensures OnlyNew(v, w, x, r) && |Head(w, x).pageLockThread| == BLOCK_PAGES && Index(w, r).blockId == x
  {
    hide SameLists;
  }

  lemma GrantFacts(c: Config, v: View, given: Grant)
    requires Inv(c, v) && (v.free == [] ==> GrantOk(v, given))
    ensures NewId(v, given) != 0 && (v.free == [] ==> given.id !in v.adr)
    ensures v.free != [] ==> v.free[0] in v.free && v.free[0] in v.heads && v.free[0] in v.data && v.free[0] in v.adr
  {
  }

  /** A block that is put to use has no locks, so it does not matter which of its masks are cleared. */
  lemma NoOldLocks(c: Config, v: View, r: nat, given: Grant)
    requires Inv(c, v) && (v.free == [] ==> GrantOk(v, given))
    ensures InitMasks(c, Head(v, NewId(v, given)), r) == NO_LOCKS
  {
    hide Inv, Partition;
    GrantFacts(c, v, given);
    KeysFacts(c, v);
    if v.free != [] { IdFacts(c, v, v.free[0]); }
    assert forall i: nat :: Bits(Head(v, NewId(v, given)), i) == {};
  }

  /** The fields of the state after loading. */
  lemma FreshFields(c: Config, v: View, r: nat, bit: nat, slot: Option<nat>, fix: bool, given: Grant)
    requires r < |v.table| && v.table[r] == BlockIndex(0, {}) && PoolLocking.SlotOk(v, slot)
    requires v.free != [] ==> v.free[0] in v.data
    requires InitMasks(c, Head(v, NewId(v, given)), r) == NO_LOCKS
    ensures LockFresh(c, v, r, bit, slot, fix, given).1 == NewId(v, given)
    ensures var w := LockFresh(c, v, r, bit, slot, fix, given).0; var x := NewId(v, given);
      && w.heads == v.heads[x := NewHead(r, bit, slot, fix)]
      && w.table == v.table[r := BlockIndex(x, {bit})]
      && w.free == (if v.free != [] then v.free[1..] else []) && w.unlock == v.unlock
      && w.lock == (if slot.None? || fix then v.lock else [x] + v.lock)
      && w.fixed == (if slot.None? || fix then [x] + v.fixed else v.fixed)
      && w.threads == (if slot.None? || fix then v.threads else WithBlocks(v.threads, slot.value, BlocksOf(v.threads, slot.value) + {r}))
      && w.adr == (if v.free != [] then v.adr else v.adr[given.id := given.adr])
      && w.data == v.data[x := ReadBlock(c, if v.free != [] then v.data[x] else given.bytes, r)]
  {
    hide ReadBlock, InitMasks;
    assert {} + {bit} == {bit};
    assert slot.Some? ==> Bits(BlockHead(r, false, NO_LOCKS), bit) + {slot.value} == {slot.value};
    var x := NewId(v, given);
    var bytes := ReadBlock(c, given.bytes, r);
    assert v.free == [] ==> v.data[x := given.bytes][x := bytes] == v.data[x := bytes];
  }

  /** Pool block x leaves the free list, or is new, and joins the lock list or the fixed list. */
  ghost predicate Joins(v: View, w: View, x: nat, fixed: bool) {
    && Distinct(w.free) && Distinct(w.lock) && Distinct(w.fixed) && w.unlock == v.unlock
    && (forall id :: id in w.free <==> id in v.free && id != x)
    && (forall id :: id in w.lock <==> id in v.lock || (!fixed && id == x))
    && (forall id :: id in w.fixed <==> id in v.fixed || (fixed && id == x))
  }

  lemma NewLists(c: Config, v: View, w: View, x: nat, slot: Option<nat>, fix: bool, given: Grant)
    requires Partition(v) && x == NewId(v, given) && x != 0 && (v.free == [] ==> x !in v.heads)
    requires w.heads.Keys == v.heads.Keys + {x}
    requires w.free == (if v.free != [] then v.free[1..] else []) && w.unlock == v.unlock
    requires w.lock == (if slot.None? || fix then v.lock else [x] + v.lock)
    requires w.fixed == (if slot.None? || fix then [x] + v.fixed else v.fixed)
    ensures Partition(w) && SameLists(v, w, x) && x !in w.free && x !in w.unlock
    ensures if slot.None? || fix then x in w.fixed && x !in w.lock else x in w.lock && x !in w.fixed
  {
    hide Distinct, SameLists;
    NewIsOff(v, x, given);
    if v.free != [] { TailMembers(v.free); }
    ConsDistinct(x, v.lock);
    ConsDistinct(x, v.fixed);
    JoinsParts(v, w, x, slot.None? || fix);
  }

  lemma NewIsOff(v: View, x: nat, given: Grant)
    requires Partition(v) && x == NewId(v, given) && (v.free == [] ==> x !in v.heads)
    ensures x !in v.lock && x !in v.fixed && x !in v.unlock && (x in v.free || x !in v.heads)
    ensures Distinct(v.free) && Distinct(v.lock) && Distinct(v.fixed)
  {
    hide Distinct;
    if v.free != [] { assert v.free[0] in v.free; }
  }

  lemma JoinsParts(v: View, w: View, x: nat, fixed: bool)
    requires Partition(v) && Joins(v, w, x, fixed) && w.heads.Keys == v.heads.Keys + {x} && (x in v.free || x !in v.heads)
    ensures Partition(w) && SameLists(v, w, x) && x !in w.free && x !in w.unlock
    ensures if fixed then x in w.fixed && x !in w.lock else x in w.lock && x !in w.fixed
  {
    hide Distinct;
  }

  lemma TailMembers(s: seq<nat>)
    requires Distinct(s) && s != []
    ensures Distinct(s[1..]) && forall i :: i in s[1..] <==> i in s && i != s[0]
  {
    assert s == [s[0]] + s[1..];
    forall i | i in s[1..] ensures i != s[0] {
      var k :| 0 <= k < |s[1..]| && s[1..][k] == i;
      assert s[k + 1] == i;
    }
  }

  lemma ConsDistinct(x: nat, s: seq<nat>)
    requires Distinct(s) && x !in s
    ensures Distinct([x] + s) && forall i :: i in [x] + s <==> i == x || i in s
  {
  }

  lemma NewPlaces(c: Config, v: View, w: View, r: nat, given: Grant)
    requires Inv(c, v) && 1 <= r < c.BlockCount() && Index(v, r).blockId == 0
    requires if v.free != [] then w.adr == v.adr else GrantOk(v, given) && w.adr == v.adr[given.id := given.adr]
    ensures Disjoint(w.adr) && |w.adr| <= c.BlockCount()
  {
    if v.free == [] {
      RoomForOne(c, v, r);
      assert w.adr.Keys == v.adr.Keys + {given.id};
    }
  }

  lemma NewIdOk(c: Config, w: View, x: nat, r: nat, bit: nat, slot: Option<nat>, fix: bool)
    requires 1 <= r < c.BlockCount() && bit < BLOCK_PAGES && x in w.heads && x != 0 && x !in w.free && x !in w.unlock
    requires r < |w.table| && w.table[r] == BlockIndex(x, {bit}) && w.heads[x] == NewHead(r, bit, slot, fix)
    requires if slot.None? || fix then x in w.fixed && x !in w.lock else x in w.lock && x !in w.fixed
    requires slot.Some? && !fix ==> r in BlocksOf(w.threads, slot.value)
    requires x in w.data && Shows(c, w.data[x], r)
    ensures IdOk(c, w, x) && BlockOk(c, w, r)
  {
  }

  // ---- release ----

  /** Giving the last blocks of the free list back to the allocator touches no other block. */
  lemma ReleaseOk(c: Config, v: View, rest: seq<nat>, ids: seq<nat>)
    requires Inv(c, v) && v.free == rest + ids
    ensures Inv(c, Release(v, ids).(free := rest))
    ensures forall x | x in v.heads && x !in v.free :: Untouched(v, Release(v, ids).(free := rest), x)
    ensures |Release(v, ids).adr| == |v.adr| - |ids|
  {
    hide IdOk, BlockOk, ThreadsOk, Shows, Partition, Disjoint, Release, Shape;
    var w := Release(v, ids).(free := rest);
    KeysFacts(c, v);
    ReleaseLists(v, w, rest, ids);
    forall y | y in w.heads ensures IdOk(c, w, y) {
      ReleaseId(c, v, w, rest, ids, y);
    }
    ReleaseShape(c, v, w, rest, ids);
    forall x | x in v.heads && x !in v.free ensures Untouched(v, w, x) {
      ReleaseKeeps(c, v, w, ids, x);
    }
    forall b: nat | 1 <= b < |w.table| ensures BlockOk(c, w, b) {
      ReleaseBlock(c, v, w, rest, ids, b);
    }
  }

  lemma ReleaseShape(c: Config, v: View, w: View, rest: seq<nat>, ids: seq<nat>)
    requires Shape(c, v) && w == Release(v, ids).(free := rest) && Disjoint(v.adr)
    requires Distinct(ids) && 0 !in ids && forall x | x in ids :: x in v.free && x in v.heads && x in v.adr
    ensures Shape(c, w) && Disjoint(w.adr) && |w.adr| == |v.adr| - |ids| && w.data[0] == v.data[0]
    ensures Release(v, ids).adr == w.adr && w.table == v.table && w.threads == v.threads
  {
    hide Disjoint, Config.Valid, Config.BlockCount, Distinct;
    ReleaseCard(v.adr, ids);
    ReleaseKeys(v, w, rest, ids);
    DisjointLess(v.adr, w.adr);
    hide Release;
  }

  lemma ReleaseKeys(v: View, w: View, rest: seq<nat>, ids: seq<nat>)
    requires w == Release(v, ids).(free := rest) && 0 !in ids && 0 in v.adr
    requires v.data.Keys == v.adr.Keys && v.heads.Keys == v.adr.Keys - {0}
    ensures w.adr.Keys == v.adr.Keys - (set id | id in ids)
    ensures w.data.Keys == w.adr.Keys && w.heads.Keys == w.adr.Keys - {0} && 0 in w.adr
    ensures (forall x | x in w.adr :: w.adr[x] == v.adr[x]) && (forall x | x in w.heads :: x in v.heads && w.heads[x] == v.heads[x])
    ensures forall x | x in w.data :: x in v.data && w.data[x] == v.data[x]
    ensures w.table == v.table && w.threads == v.threads && w.adr == v.adr - (set id | id in ids)
  {
  }

  lemma ReleaseKeeps(c: Config, v: View, w: View, ids: seq<nat>, x: nat)
    requires Shape(c, v) && w == Release(v, ids).(free := w.free) && x in v.heads && x !in ids
    ensures Untouched(v, w, x)
  {
  }

  lemma DisjointLess(a: map<nat, nat>, b: map<nat, nat>)
    requires Disjoint(a) && forall x | x in b :: x in a && b[x] == a[x]
    ensures Disjoint(b)
  {
  }

  lemma ReleaseCard(a: map<nat, nat>, ids: seq<nat>)
    requires Distinct(ids) && forall x | x in ids :: x in a
    ensures |a - (set id | id in ids)| == |a| - |ids|
  {
    ElemsCard(ids);
    var gone := set id | id in ids;
    assert gone == Elems(ids);
    assert (a - gone).Keys == a.Keys - gone;
    assert a.Keys == (a.Keys - gone) + gone;
  }

  lemma ReleaseLists(v: View, w: View, rest: seq<nat>, ids: seq<nat>)
    requires Partition(v) && v.free == rest + ids && w == Release(v, ids).(free := rest)
    requires v.heads.Keys <= v.adr.Keys && 0 !in v.heads
    ensures Partition(w) && Distinct(ids) && 0 !in ids
    ensures forall x | x in ids :: x in v.free && x in v.heads && x in v.adr && x !in rest
    ensures forall x :: x in v.free <==> x in rest || x in ids
  {
    PartsDistinct(rest, ids);
  }

  lemma ReleaseId(c: Config, v: View, w: View, rest: seq<nat>, ids: seq<nat>, y: nat)
    requires Inv(c, v) && v.free == rest + ids && w == Release(v, ids).(free := rest) && y in w.heads
    ensures IdOk(c, w, y)
  {
    hide Inv, IdOk, Partition;
    IdFacts(c, v, y);
    KeysFacts(c, v);
    IdFrame(c, v, w, y);
  }

  lemma ReleaseBlock(c: Config, v: View, w: View, rest: seq<nat>, ids: seq<nat>, b: nat)
    requires Inv(c, v) && v.free == rest + ids && w == Release(v, ids).(free := rest) && 1 <= b < |v.table|
    ensures b < |w.table| && BlockOk(c, w, b)
  {
    hide Inv, IdOk, Partition;
    ThreadFacts(c, v);
    if Index(v, b).blockId != 0 { BlockFacts(c, v, b); } else { UnloadedFacts(c, v, b); }
  }

  // ---- compaction ----

  /** What w shows of the file, and how, is what v showed; only unlocked blocks may be elsewhere. */
  ghost predicate Relocated(v: View, w: View) {
    && |w.table| == |v.table| && w.threads == v.threads
    && w.lock == v.lock && w.free == v.free && w.fixed == v.fixed && |w.unlock| == |v.unlock|
    && forall r: nat | r < |v.table| :: RelocatedBlock(v, w, r)
  }

  ghost predicate RelocatedBlock(v: View, w: View, r: nat) {
    var x, y := Index(v, r).blockId, Index(w, r).blockId;
    && Index(w, r).pageLock == Index(v, r).pageLock
    && (x == 0 <==> y == 0)
    && (x != 0 ==> x in v.data && y in w.data && w.data[y] == v.data[x] && Head(w, y) == Head(v, x))
    && (x in v.unlock <==> y in w.unlock)
    && (x !in v.unlock ==> y == x && x in v.adr && x in w.adr && w.adr[x] == v.adr[x])
  }

  lemma RelocatedTrans(u: View, v: View, w: View)
    requires Relocated(u, v) && Relocated(v, w)
    ensures Relocated(u, w)
  {
    forall r: nat | r < |u.table| ensures RelocatedBlock(u, w, r) {
      assert RelocatedBlock(u, v, r) && RelocatedBlock(v, w, r);
    }
  }

  lemma RelocatedRefl(c: Config, v: View)
    requires Inv(c, v)
    ensures Relocated(v, v)
  {
    hide Inv, Partition, IdOk, BlockOk;
    KeysFacts(c, v);
    ThreadFacts(c, v);
    forall r: nat | r < |v.table| ensures RelocatedBlock(v, v, r) {
      if r == 0 {
        ZeroFacts(c, v);
      } else if Index(v, r).blockId != 0 {
        BlockFacts(c, v, r);
      }
    }
  }

  lemma ZeroFacts(c: Config, v: View)
    requires Inv(c, v)
    ensures Index(v, 0).blockId == 0 && 0 in v.adr && 0 !in v.heads && 0 !in v.unlock
  {
  }

  lemma MoveUnlockedOk(c: Config, v: View, from: nat, to: nat, place: nat)
    requires Inv(c, v) && from in v.unlock && to !in v.adr
    requires Disjoint((v.adr - {from})[to := place])
    ensures Inv(c, MoveUnlocked(v, from, to, place)) && Relocated(v, MoveUnlocked(v, from, to, place))
    ensures forall id :: id in MoveUnlocked(v, from, to, place).unlock <==> id == to || (id in v.unlock && id != from)
  {
    hide IdOk, BlockOk, ThreadsOk, Shows, Partition, Disjoint, RelocatedBlock;
    var w := MoveUnlocked(v, from, to, place);
    MoveLists(c, v, w, from, to, place);
    forall y | y in w.heads ensures IdOk(c, w, y) {
      MoveId(c, v, w, from, to, place, y);
    }
    forall b: nat | 1 <= b < |w.table| ensures BlockOk(c, w, b) {
      MoveBlockOk(c, v, w, from, to, place, b);
    }
    MoveCard(v.adr, from, to, place);
    forall r: nat | r < |v.table| ensures RelocatedBlock(v, w, r) {
      MoveRelocates(c, v, w, from, to, place, r);
    }
  }

  lemma MoveCard(a: map<nat, nat>, from: nat, to: nat, place: nat)
    requires from in a && to !in a
    ensures |(a - {from})[to := place]| == |a|
  {
    assert (a - {from}).Keys == a.Keys - {from};
    assert (a - {from})[to := place].Keys == a.Keys - {from} + {to};
  }

  lemma MoveLists(c: Config, v: View, w: View, from: nat, to: nat, place: nat)
    requires Inv(c, v) && from in v.unlock && to !in v.adr && w == MoveUnlocked(v, from, to, place)
    ensures Partition(w) && |w.unlock| == |v.unlock| && to != 0 && from in v.heads && from in v.data && from in v.adr
    ensures 1 <= v.heads[from].realBlock < |v.table|
    ensures forall id :: id in w.unlock <==> id == to || (id in v.unlock && id != from)
    ensures to !in v.lock && to !in v.unlock && to !in v.free && to !in v.fixed
    ensures from !in v.lock && from !in v.free && from !in v.fixed
  {
    hide Inv, IdOk, BlockOk, ThreadsOk, Shows, Disjoint;
    KeysFacts(c, v);
    IdFacts(c, v, from);
    MinusMembers(v.unlock, from);
    assert to !in v.heads && to !in v.unlock;
    JoinDistinct([to], Minus(v.unlock, from));
  }

  lemma MoveId(c: Config, v: View, w: View, from: nat, to: nat, place: nat, y: nat)
    requires Inv(c, v) && from in v.unlock && to !in v.adr && w == MoveUnlocked(v, from, to, place) && y in w.heads
    ensures IdOk(c, w, y)
  {
    hide Inv, Partition, Shows, Disjoint;
    MoveLists(c, v, w, from, to, place);
    KeysFacts(c, v);
    IdFacts(c, v, from);
    if y != to {
      IdFacts(c, v, y);
      MoveOther(c, v, w, from, to, place, y);
    }
  }

  lemma MoveOther(c: Config, v: View, w: View, from: nat, to: nat, place: nat, y: nat)
    requires Inv(c, v) && from in v.unlock && to !in v.adr && w == MoveUnlocked(v, from, to, place)
    requires y in v.heads && y in w.heads && y != to && y != from
    ensures IdOk(c, w, y)
  {
    hide Inv, Partition, Shows, Disjoint, IdOk;
    MoveLists(c, v, w, from, to, place);
    KeysFacts(c, v);
    IdFacts(c, v, from);
    IdFacts(c, v, y);
    IdFrame(c, v, w, y);
  }

  lemma MoveBlockOk(c: Config, v: View, w: View, from: nat, to: nat, place: nat, b: nat)
    requires Inv(c, v) && from in v.unlock && to !in v.adr && w == MoveUnlocked(v, from, to, place) && 1 <= b < |v.table|
    ensures b < |w.table| && BlockOk(c, w, b)
  {
    hide Inv, Partition, Shows, Disjoint, IdOk;
    MoveLists(c, v, w, from, to, place);
    ThreadFacts(c, v);
    IdFacts(c, v, from);
    if Index(v, b).blockId != 0 { BlockFacts(c, v, b); } else { UnloadedFacts(c, v, b); }
  }

  lemma MoveRelocates(c: Config, v: View, w: View, from: nat, to: nat, place: nat, r: nat)
    requires Inv(c, v) && from in v.unlock && to !in v.adr && w == MoveUnlocked(v, from, to, place) && r < |v.table|
    ensures RelocatedBlock(v, w, r)
  {
    hide Inv, Partition, Shows, Disjoint, IdOk, BlockOk, MoveUnlocked, Distinct, ThreadsOk;
    MoveLists(c, v, w, from, to, place);
    MovedFields(v, w, from, to, place);
    ThreadFacts(c, v);
    KeysFacts(c, v);
    ZeroFacts(c, v);
    IdFacts(c, v, from);
    if r != 0 && Index(v, r).blockId != 0 { BlockFacts(c, v, r); }
  }

  lemma MovedFields(v: View, w: View, from: nat, to: nat, place: nat)
    requires w == MoveUnlocked(v, from, to, place) && from in v.heads && from in v.data && v.heads[from].realBlock < |v.table|
    ensures w.table == v.table[v.heads[from].realBlock := v.table[v.heads[from].realBlock].(blockId := to)]
    ensures to in w.heads && w.heads[to] == v.heads[from] && to in w.data && w.data[to] == v.data[from]
    ensures to in w.adr && forall x | x in v.adr && x != from && x != to :: x in w.adr && w.adr[x] == v.adr[x]
    ensures forall x | x != from && x != to :: (x in w.heads <==> x in v.heads) && (x in w.heads ==> w.heads[x] == v.heads[x])
    ensures forall x | x in v.data && x != from && x != to :: x in w.data && w.data[x] == v.data[x]
  {
  }

  /** The addresses a compaction may use: every block keeps its place, and every target has one. */
  ghost predicate PlacesOk(adr: map<nat, nat>, log: seq<Call>, places: map<nat, nat>) {
    && Disjoint(places)
    && (forall x | x in adr :: x in places && places[x] == adr[x])
    && (forall k | 0 <= k < |log| && log[k].moved :: log[k].to in places)
  }

  /** Only blocks of the unlock list are moved, which is what the callback of defragment answers. */
  ghost predicate OnlyUnlocked(unlock: seq<nat>, log: seq<Call>) {
    forall k | 0 <= k < |log| && log[k].moved :: log[k].from in unlock
  }

  /** The accepted moves of a compaction, for any questions the allocator may ask: the page table shows the same
      blocks in the same way, and the bytes are where the allocator has put them. */
  lemma {:induction false} MoveAllOk(c: Config, v: View, log: seq<Call>, places: map<nat, nat>)
    requires Inv(c, v) && LogOk(v.data, log) && OnlyUnlocked(v.unlock, log) && PlacesOk(v.adr, log, places)
    ensures Inv(c, MoveAll(v, log, places)) && Relocated(v, MoveAll(v, log, places))
    ensures MoveAll(v, log, places).data == DataAfter(v.data, log)
    ensures forall id :: id in MoveAll(v, log, places).unlock <==> (id in v.unlock && id !in Froms(log)) || id in Tos(log)
    ensures forall x | x in MoveAll(v, log, places).adr :: x in places && places[x] == MoveAll(v, log, places).adr[x]
  {
    hide Inv, Relocated, Disjoint, MoveUnlocked, Move;
    if log == [] {
      RelocatedRefl(c, v);
    } else {
      var e, prev := log[|log| - 1], log[..|log| - 1];
      assert forall k | 0 <= k < |prev| :: prev[k] == log[k];
      MoveAllOk(c, v, prev, places);
      if e.moved {
        MoveNext(c, v, MoveAll(v, prev, places), prev, e, places);
      }
    }
  }

  lemma MoveNext(c: Config, v: View, w: View, prev: seq<Call>, e: Call, places: map<nat, nat>)
    requires LogOk(v.data, prev) && Inv(c, w) && Relocated(v, w) && w.data == DataAfter(v.data, prev)
    requires e.from in w.data && e.to !in w.data && e.from !in Tos(prev) && e.to !in Froms(prev)
    requires e.from in v.unlock && e.to in places && Disjoint(places)
    requires forall id :: id in w.unlock <==> (id in v.unlock && id !in Froms(prev)) || id in Tos(prev)
    requires forall x | x in w.adr :: x in places && places[x] == w.adr[x]
    ensures var u := MoveUnlocked(w, e.from, e.to, places[e.to]);
      && Inv(c, u) && Relocated(v, u) && u.data == Move(w.data, e.from, e.to)
      && (forall id :: id in u.unlock <==> (id in v.unlock && id !in Froms(prev) && id != e.from) || id in Tos(prev) || id == e.to)
      && (forall x | x in u.adr :: x in places && places[x] == u.adr[x])
  {
    hide Inv, Relocated, LogOk, DataAfter, Froms, Tos, Move, Disjoint;
    NotMovedYet(v.data, prev, e.from);
    KeysFacts(c, w);
    DisjointLess(places, (w.adr - {e.from})[e.to := places[e.to]]);
    MoveUnlockedOk(c, w, e.from, e.to, places[e.to]);
    RelocatedTrans(v, w, MoveUnlocked(w, e.from, e.to, places[e.to]));
  }
}
