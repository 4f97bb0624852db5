/** The lemmas that tie the buffer pool object to the state machine. */
module PoolObjectFacts {
  import opened Sequences
  import opened Arenas
  import opened Moves
  import ArenaFacts
  import opened VirtualMemory
  import Threads
  import opened BlockLists
  import opened PoolModel
  import opened PoolInvariant
  import PoolUnlocking
  import opened PoolMemory
  import PoolSafety
  import PoolTheorems

  /** No block is on two lists. */
  ghost predicate Apart(lock: seq<nat>, unlock: seq<nat>, free: seq<nat>, fixed: seq<nat>) {
    && (forall x | x in lock :: x !in unlock && x !in free && x !in fixed)
    && (forall x | x in unlock :: x !in free && x !in fixed)
    && (forall x | x in free :: x !in fixed)
  }

  lemma NothingUsed(vm: VmUnix)
    requires vm.Valid() && vm.UsedIds() == {}
    ensures Places(vm.arena) == map[] && Contents(vm.arena, vm.mem) == map[] && vm.blockCount == 0
  {
    UsedPlaces(vm);
    assert Places(vm.arena).Keys == {};
    assert Contents(vm.arena, vm.mem).Keys == {};
  }

  lemma ThreadCount(t: Threads.ThreadTable)
    requires t.Valid()
    ensures |t.data| == Threads.MAX_THREAD
  {
  }

  lemma StartView(c: Config, v: View, adr: nat)
    requires |v.table| == c.BlockCount() > 0 && v.table[0] == BlockIndex(0, {0, 1, 2, 3, 4, 5, 6, 7})
    requires forall r: nat | 1 <= r < |v.table| :: v.table[r] == BlockIndex(0, {})
    requires v.heads == map[] && v.lock == v.unlock == v.free == v.fixed == []
    requires |v.threads| == Threads.MAX_THREAD && forall k | 0 <= k < Threads.MAX_THREAD :: v.threads[k].NoThread?
    requires v.adr == map[0 := adr] && v.data == map[0 := ReadBlock(c, ZeroBlock(), 0)]
    ensures v == PoolTheorems.Start(c, adr, ZeroBlock())
  {
    hide ReadBlock, ZeroBlock, Config.BlockCount;
  }

  lemma ListRenamed(h: map<nat, Links>, g: map<nat, Links>, head: nat, tail: nat, s: seq<nat>, from: nat, to: nat)
    requires IsList(h, head, tail, s) && g == (h - {from})[to := Links(0, 0)] && from !in s && to !in s && to != 0
    ensures IsList(g, head, tail, s)
  {
    assert forall x | x in s :: x in h;
  }

  lemma StartMoves(v: View, log: seq<Call>, places: map<nat, nat>)
    ensures MoveAll(v, log[..0], places) == v
  {
  }

  /** What the next question is about, and what its answer does. */
  lemma NextMove(c: Config, v: View, log: seq<Call>, k: nat, places: map<nat, nat>)
    requires Inv(c, v) && LogOk(v.data, log) && OnlyUnlocked(v.unlock, log) && PlacesOk(v.adr, log, places) && k < |log|
    ensures var w, e := MoveAll(v, log[..k], places), log[k];
      if e.moved then
        && e.from in w.unlock && e.from in w.heads && e.to !in w.heads && e.to != 0
        && w.heads[e.from].realBlock < |w.table|
        && MoveAll(v, log[..k + 1], places) == MoveUnlocked(w, e.from, e.to, if e.to in places then places[e.to] else 0)
      else MoveAll(v, log[..k + 1], places) == w
  {
    hide Inv, MoveUnlocked, PlacesOk, Relocated, DataAfter;
    var w, e := MoveAll(v, log[..k], places), log[k];
    LogPrefix(v.data, log, k + 1);
    assert log[..k + 1][..k] == log[..k] && log[..k + 1][k] == e;
    PrefixOk(v.unlock, v.adr, log, k, places);
    MoveAllOk(c, v, log[..k], places);
    KeysFacts(c, w);
    hide MoveAll;
    if e.moved {
      NotMovedYet(v.data, log[..k], e.from);
      UnlockFacts(c, w, e.from);
    }
  }

  lemma UnlockFacts(c: Config, w: View, x: nat)
    requires Inv(c, w) && x in w.unlock
    ensures x in w.heads && w.heads[x].realBlock < |w.table|
  {
    assert x in w.heads;
    IdFacts(c, w, x);
  }

  lemma {:induction false} LogPrefix(d: map<nat, Block>, log: seq<Call>, k: nat)
    requires LogOk(d, log) && k <= |log|
    ensures LogOk(d, log[..k])
    ensures k > 0 ==> LogOk(d, log[..k - 1])
    ensures k > 0 ==> log[k - 1].from in DataAfter(d, log[..k - 1]) && log[k - 1].to !in DataAfter(d, log[..k - 1])
    ensures k > 0 ==> log[k - 1].from !in Tos(log[..k - 1]) && log[k - 1].to !in Froms(log[..k - 1])
    decreases |log|
  {
    if k < |log| {
      LogPrefix(d, log[..|log| - 1], k);
      assert log[..|log| - 1][..k] == log[..k];
      assert k > 0 ==> log[..|log| - 1][..k - 1] == log[..k - 1];
    } else {
      assert log[..k] == log;
    }
  }

  lemma PrefixOk(unlock: seq<nat>, adr: map<nat, nat>, log: seq<Call>, k: nat, places: map<nat, nat>)
    requires OnlyUnlocked(unlock, log) && PlacesOk(adr, log, places) && k <= |log|
    ensures OnlyUnlocked(unlock, log[..k]) && PlacesOk(adr, log[..k], places)
  {
  }

  lemma MoveFields(v: View, from: nat, to: nat, place: nat)
    requires from in v.heads && v.heads[from].realBlock < |v.table|
    ensures var w := MoveUnlocked(v, from, to, place);
      && w.table == v.table[v.heads[from].realBlock := v.table[v.heads[from].realBlock].(blockId := to)]
      && w.heads == (v.heads - {from})[to := v.heads[from]] && w.unlock == [to] + Minus(v.unlock, from)
      && w.lock == v.lock && w.free == v.free && w.fixed == v.fixed
  {
  }

  /** The targets of the accepted moves have addresses. */
  lemma PlacesKnown(v: View, vm: VmUnix, log: seq<Call>, places: map<nat, nat>)
    requires LogOk(v.data, log) && vm.Data() == DataAfter(v.data, log) && Disjoint(places)
    requires forall x | x in v.adr :: x in places && places[x] == v.adr[x]
    requires Places(vm.arena).Keys == vm.Data().Keys && forall x | x in Places(vm.arena) :: x in places
    ensures PlacesOk(v.adr, log, places)
  {
    hide Disjoint, Places, VmUnix.Data, LogOk, DataAfter;
    forall k | 0 <= k < |log| && log[k].moved ensures log[k].to in places {
      MovedData(v.data, log, k);
    }
  }

  /** After the moves the object shows what the machine shows. */
  lemma MovedView(c: Config, v: View, vm: VmUnix, log: seq<Call>, places: map<nat, nat>)
    requires Inv(c, MoveAll(v, log, places)) && Relocated(v, MoveAll(v, log, places))
    requires MoveAll(v, log, places).data == DataAfter(v.data, log) == vm.Data()
    requires forall x | x in MoveAll(v, log, places).adr :: x in places && places[x] == MoveAll(v, log, places).adr[x]
    requires Places(vm.arena).Keys == vm.Data().Keys
    requires forall x | x in Places(vm.arena) :: x in places && places[x] == Places(vm.arena)[x]
    ensures Places(vm.arena) == MoveAll(v, log, places).adr && MoveAll(v, log, places).threads == v.threads
  {
    hide Inv, Places, VmUnix.Data, DataAfter, MoveAll;
    KeysFacts(c, MoveAll(v, log, places));
  }

  /** The addresses of all blocks of all arenas that have memory. */
  ghost function AllPlaces(a: seq<Arena>): map<nat, nat> {
    map id: nat | id < ARENA_BLOCKS * |a| && a[id / ARENA_BLOCKS].Live() :: Adr(a, id)
  }

  lemma NoMoves(c: Config, v: View)
    requires Inv(c, v)
    ensures LogOk(v.data, []) && OnlyUnlocked(v.unlock, []) && PlacesOk(v.adr, [], v.adr)
  {
  }

  /** Arena i has a block that defragment may move. */
  ghost predicate Movable(v: View, vm: VmUnix, i: nat)
    reads vm
  {
    i < |vm.arena| && exists b :: b in vm.arena[i].mask && ARENA_BLOCKS * i + b in v.unlock
  }

  /** At most one mixed arena has unlocked blocks. */
  ghost predicate OneMovable(v: View, vm: VmUnix)
    reads vm
  {
    forall i, j | i in vm.mixed && j in vm.mixed && Movable(v, vm, i) && Movable(v, vm, j) :: i == j
  }

  lemma NoneMovable(v: View, vm: VmUnix)
    requires v.unlock == []
    ensures OneMovable(v, vm)
  {
  }

  lemma SameKeys(c: Config, v: View)
    requires Inv(c, v)
    ensures v.adr.Keys == v.data.Keys
  {
  }

  /** After a compaction that refused exactly the blocks that are not unlocked. */
  lemma NowCompact(v: View, w: View, vm: VmUnix, log: seq<Call>)
    requires LogOk(v.data, log) && ArenaFacts.Compacted(vm.arena, vm.mixed, log)
    requires forall k | 0 <= k < |log| :: log[k].moved <==> log[k].from in v.unlock
    requires forall id :: id in w.unlock <==> (id in v.unlock && id !in Froms(log)) || id in Tos(log)
    ensures OneMovable(w, vm)
  {
    hide LogOk, Froms, Tos, ArenaFacts.Stuck, Movable;
    forall i, j | i in vm.mixed && j in vm.mixed && Movable(w, vm, i) && Movable(w, vm, j) ensures i == j {
      if ArenaFacts.Stuck(vm.arena, i, log) { StuckIsFixed(v, w, vm, log, i); }
      if ArenaFacts.Stuck(vm.arena, j, log) { StuckIsFixed(v, w, vm, log, j); }
    }
  }

  lemma StuckIsFixed(v: View, w: View, vm: VmUnix, log: seq<Call>, i: nat)
    requires LogOk(v.data, log) && ArenaFacts.Stuck(vm.arena, i, log)
    requires forall k | 0 <= k < |log| :: log[k].moved <==> log[k].from in v.unlock
    requires forall id :: id in w.unlock <==> (id in v.unlock && id !in Froms(log)) || id in Tos(log)
    ensures !Movable(w, vm, i)
  {
    hide LogOk, Froms, Tos;
    forall b | b in vm.arena[i].mask ensures ARENA_BLOCKS * i + b !in w.unlock {
      RefusedNotFilled(v.data, log, ARENA_BLOCKS * i + b);
    }
  }

  lemma PlacesApart(vm: VmUnix)
    requires vm.Valid()
    ensures Disjoint(AllPlaces(vm.arena))
    ensures forall x | x in Places(vm.arena) :: x in AllPlaces(vm.arena) && AllPlaces(vm.arena)[x] == Places(vm.arena)[x]
  {
    hide IsChain, ListsOk, SortOk, CountUsed;
    var a := vm.arena;
    forall x, y | x in AllPlaces(a) && y in AllPlaces(a) && x != y
      ensures AllPlaces(a)[x] + BLOCK_SIZE <= AllPlaces(a)[y] || AllPlaces(a)[y] + BLOCK_SIZE <= AllPlaces(a)[x]
    {
      SlotsApart(a, x, y);
    }
  }

  lemma SlotsApart(a: seq<Arena>, x: nat, y: nat)
    requires RangesDisjoint(a) && x / ARENA_BLOCKS < |a| && y / ARENA_BLOCKS < |a| && x != y
    requires a[x / ARENA_BLOCKS].Live() && a[y / ARENA_BLOCKS].Live()
    ensures Adr(a, x) + BLOCK_SIZE <= Adr(a, y) || Adr(a, y) + BLOCK_SIZE <= Adr(a, x)
  {
    var i, j := x / ARENA_BLOCKS, y / ARENA_BLOCKS;
    if i < j {
      assert a[i].adr + ARENA_SIZE <= a[j].adr || a[j].adr + ARENA_SIZE <= a[i].adr;
    } else if j < i {
      assert a[j].adr + ARENA_SIZE <= a[i].adr || a[i].adr + ARENA_SIZE <= a[j].adr;
    }
  }

  /** Compaction uses no addresses but those of the arenas it started with. */
  lemma PlacesAfter(a: seq<Arena>, vm: VmUnix)
    requires vm.Valid() && vm.SamePlaces(a)
    ensures forall x | x in Places(vm.arena) :: x in AllPlaces(a) && AllPlaces(a)[x] == Places(vm.arena)[x]
    ensures Places(vm.arena).Keys == vm.Data().Keys
  {
    hide IsChain, ListsOk, SortOk, CountUsed, RangesDisjoint;
  }

  lemma Answers(move: MoveFun, ids: seq<nat>, log: seq<Call>)
    requires Replays(move, log) && move == ((h: seq<Call>, from: nat, to: nat) => from in ids)
    ensures OnlyUnlocked(ids, log) && forall k | 0 <= k < |log| :: log[k].moved <==> log[k].from in ids
  {
  }

  lemma ReleaseFields(v: View, w: View, ids: seq<nat>, rest: seq<nat>)
    requires v == w.(free := rest)
    ensures Release(v, ids) == Release(w, ids).(free := rest)
  {
  }

  /** The first k of the released blocks. */
  ghost function Gone(ids: seq<nat>, k: nat): set<nat>
    requires k <= |ids|
  {
    set x | x in ids[..k]
  }

  lemma NothingGone(heads: map<nat, BlockHead>, h: map<nat, Links>, places: map<nat, nat>, data: map<nat, Block>, ids: seq<nat>)
    ensures heads - Gone(ids, 0) == heads && h - Gone(ids, 0) == h
    ensures places - Gone(ids, 0) == places && data - Gone(ids, 0) == data
  {
  }

  lemma GoneNext(heads: map<nat, BlockHead>, h: map<nat, Links>, places: map<nat, nat>, data: map<nat, Block>, ids: seq<nat>, k: nat)
    requires k < |ids| && Distinct(ids)
    ensures ids[k] !in Gone(ids, k)
    ensures heads - Gone(ids, k) - {ids[k]} == heads - Gone(ids, k + 1) && h - Gone(ids, k) - {ids[k]} == h - Gone(ids, k + 1)
    ensures places - Gone(ids, k) - {ids[k]} == places - Gone(ids, k + 1) && data - Gone(ids, k) - {ids[k]} == data - Gone(ids, k + 1)
  {
    assert ids[..k + 1] == ids[..k] + [ids[k]];
    assert Gone(ids, k + 1) == Gone(ids, k) + {ids[k]};
    hide Gone;
  }

  lemma FirstOf(h: map<nat, Links>, head: nat, tail: nat, s: seq<nat>)
    requires IsList(h, head, tail, s)
    ensures head == if s == [] then 0 else s[0]
  {
  }

  lemma LessPlaces(a: seq<Arena>, b: seq<Arena>, p: nat, id: nat)
    requires OneMore(b, a, p, id)
    ensures Places(b) == Places(a) - {id}
  {
    hide Adr;
    assert Places(b).Keys == (Places(a) - {id}).Keys;
  }

  lemma ListLess(h: map<nat, Links>, g: map<nat, Links>, head: nat, tail: nat, s: seq<nat>, gone: set<nat>)
    requires IsList(h, head, tail, s) && g == h - gone && forall x | x in s :: x !in gone
    ensures IsList(g, head, tail, s)
  {
    assert forall x | x in s :: x in h;
  }

  lemma FreeKnown(c: Config, v: View, ids: seq<nat>)
    requires Inv(c, v) && forall x | x in ids :: x in v.free
    ensures forall x | x in ids :: x in v.adr && x !in v.lock && x !in v.unlock && x !in v.fixed
  {
    assert forall x | x in v.free :: x in v.heads;
  }

  /** Pool block id has address adr and is on no list. */
  ghost predicate TakenAt(v: View, id: nat, adr: nat) {
    && id in v.adr && v.adr[id] == adr && adr != 0 && id != 0
    && id !in v.lock && id !in v.unlock && id !in v.free && id !in v.fixed
  }

  lemma FreeFacts(c: Config, v: View)
    requires Inv(c, v) && v.free != []
    ensures v.free[0] in v.free && v.free[0] in v.adr && v.free[0] != 0 && v.adr[v.free[0]] != 0
    ensures v.free[0] !in v.lock && v.free[0] !in v.unlock && v.free[0] !in v.fixed
  {
  }

  /** One more used block is one more address and one more content. */
  lemma MorePlaces(a: seq<Arena>, b: seq<Arena>, m: map<nat, Block>, p: nat, id: nat)
    requires OneMore(a, b, p, id)
    ensures id !in Places(a) && Places(b) == Places(a)[id := p]
    ensures Contents(b, m) == Contents(a, m)[id := Peek(m, p)]
  {
    hide Adr;
    assert Places(b).Keys == Places(a)[id := p].Keys;
    assert Contents(b, m).Keys == Contents(a, m)[id := Peek(m, p)].Keys;
  }

  /** A new block does not overlap the others. */
  lemma GrantApart(a: seq<Arena>, vm: VmUnix, p: nat, id: nat)
    requires OneMore(a, vm.arena, p, id) && vm.Valid()
    ensures p != 0
    ensures forall x | x in Places(a) :: Places(a)[x] + BLOCK_SIZE <= p || p + BLOCK_SIZE <= Places(a)[x]
  {
    hide OneMore, RangesDisjoint, LiveIsUsed, Adr, ArenasOk;
    var b, brk := vm.arena, vm.brk;
    OneMoreUsed(a, b, p, id);
    BlocksApart(b, brk, id, id);
    forall x | x in Places(a) ensures Places(a)[x] + BLOCK_SIZE <= p || p + BLOCK_SIZE <= Places(a)[x] {
      BlocksApart(b, brk, x, id);
    }
  }

  lemma OneMoreUsed(a: seq<Arena>, b: seq<Arena>, p: nat, id: nat)
    requires OneMore(a, b, p, id)
    ensures id in Used(b) && id !in Used(a) && p == Adr(b, id)
    ensures forall x | x in Used(a) :: x in Used(b) && Adr(b, x) == Adr(a, x)
  {
  }

  /** Used blocks have memory, and no two of them overlap. */
  lemma BlocksApart(a: seq<Arena>, brk: nat, x: nat, y: nat)
    requires ArenasOk(a, brk) && LiveIsUsed(a) && RangesDisjoint(a) && x in Used(a) && y in Used(a)
    ensures Adr(a, x) != 0
    ensures x != y ==> Adr(a, x) + BLOCK_SIZE <= Adr(a, y) || Adr(a, y) + BLOCK_SIZE <= Adr(a, x)
  {
    var i, j := x / ARENA_BLOCKS, y / ARENA_BLOCKS;
    assert a[i].Live() && a[j].Live();
    if i < j {
      assert a[i].adr + ARENA_SIZE <= a[j].adr || a[j].adr + ARENA_SIZE <= a[i].adr;
    } else if j < i {
      assert a[j].adr + ARENA_SIZE <= a[i].adr || a[i].adr + ARENA_SIZE <= a[j].adr;
    }
  }

  lemma GrantSame(v: View, w: View, g: Grant)
    requires GrantOk(v, g) && v.adr == w.adr
    ensures GrantOk(w, g)
  {
  }

  lemma PinnedIff(c: Config, v: View, r: nat)
    requires Inv(c, v) && 1 <= r < c.BlockCount()
    ensures r < |v.table| && (v.table[r].blockId != 0 ==> v.table[r].blockId in v.heads)
    ensures PoolSafety.Pin(v, Index(v, r).blockId) <==>
              v.table[r].blockId != 0 && (v.table[r].pageLock != {} || v.heads[v.table[r].blockId].fixedBlock)
  {
    hide Inv;
    PoolUnlocking.ThreadFacts(c, v);
    KeysFacts(c, v);
    if Index(v, r).blockId != 0 {
      BlockFacts(c, v, r);
      if v.table[r].pageLock != {} || v.heads[v.table[r].blockId].fixedBlock { PoolSafety.StillPinned(c, v, v.table[r].blockId, r); }
    }
  }

  /** A movable block is on the list that its page mask tells. */
  lemma LoadedList(c: Config, v: View, r: nat)
    requires Inv(c, v) && 1 <= r < c.BlockCount() && Index(v, r).blockId != 0
    ensures var x := Index(v, r).blockId;
      x in v.heads && (!v.heads[x].fixedBlock ==> x in (if Index(v, r).pageLock != {} then v.lock else v.unlock))
  {
    hide Inv;
    BlockFacts(c, v, r);
    var x := Index(v, r).blockId;
    if !v.heads[x].fixedBlock && x !in v.unlock { PoolUnlocking.InLock(v, x); }
  }

  lemma SameZeroOf(v: View, w: View)
    requires PoolSafety.KeepsAll(v, w)
    ensures PoolSafety.SameZero(v, w)
  {
  }

  lemma PeekPlace(vm: VmUnix, id: nat)
    requires vm.Valid() && id in Places(vm.arena)
    ensures id in vm.Data() && vm.Data()[id] == Peek(vm.mem, Adr(vm.arena, id)) && vm.sortAdr != []
  {
    assert id / ARENA_BLOCKS in vm.sortAdr;
  }

  lemma SamePlaceAdr(v: View, w: View)
    requires PoolUnlocking.SamePlace(v, w)
    ensures w.adr == v.adr
  {
  }

  lemma FreeNothing(c: Config, v: View, count: nat)
    requires v.unlock == []
    ensures FreeUnlock(v, count) == v
  {
    EvictNone(v.table, v.heads, []);
    assert v.unlock[..0] == [] == v.unlock[0..];
  }

  /** The counter of the allocator is the number of addresses. */
  lemma UsedPlaces(vm: VmUnix)
    requires vm.Valid()
    ensures |Places(vm.arena)| == vm.blockCount
  {
    UsedCount(vm.arena);
    assert Places(vm.arena).Keys == Used(vm.arena);
  }

  lemma UsedBelow(vm: VmUnix, id: nat)
    requires vm.Valid() && id in Places(vm.arena)
    ensures id < ARENA_BLOCKS * vm.reserved && id in vm.UsedIds() && Places(vm.arena)[id] == Adr(vm.arena, id)
    ensures ArenaFacts.UsedAt(vm.arena, id, Adr(vm.arena, id))
  {
  }

  lemma FreeTwo(c: Config)
    ensures forall current: nat :: FreePoolBlock(c, current) >= 2
  {
  }

  /** The pool blocks ids and their file blocks point at each other. */
  ghost predicate Mutual(table: seq<BlockIndex>, heads: map<nat, BlockHead>, ids: seq<nat>) {
    forall x | x in ids ::
      && x != 0 && x in heads && heads[x].realBlock < |table|
      && forall r: nat | r < |table| :: table[r].blockId == x <==> r == heads[x].realBlock
  }

  lemma MutualUnlock(c: Config, v: View, ids: seq<nat>)
    requires Inv(c, v) && forall x | x in ids :: x in v.unlock
    ensures Mutual(v.table, v.heads, ids)
  {
    forall x | x in ids
      ensures x != 0 && x in v.heads && v.heads[x].realBlock < |v.table|
      ensures forall r: nat | r < |v.table| :: v.table[r].blockId == x <==> r == v.heads[x].realBlock
    {
      assert x in v.heads;
      IdFacts(c, v, x);
      MutualOne(c, v, x);
    }
  }

  lemma MutualOne(c: Config, v: View, x: nat)
    requires Inv(c, v) && x in v.unlock
    ensures x in v.heads && forall r: nat | r < |v.table| :: v.table[r].blockId == x <==> r == v.heads[x].realBlock
  {
    IdFacts(c, v, x);
    hide IdOk, Partition;
    forall r: nat | r < |v.table| ensures v.table[r].blockId == x <==> r == v.heads[x].realBlock {
      if r == 0 { assert Index(v, 0).blockId == 0; } else { assert BlockOk(c, v, r); }
    }
  }

  lemma EvictNone(table: seq<BlockIndex>, heads: map<nat, BlockHead>, ids: seq<nat>)
    requires ids == []
    ensures EvictTable(table, ids) == table && EvictHeads(heads, ids) == heads
  {
  }

  lemma EvictNext(table: seq<BlockIndex>, heads: map<nat, BlockHead>, ids: seq<nat>, k: nat)
    requires Mutual(table, heads, ids) && Distinct(ids) && k < |ids|
    ensures var t, g, x := EvictTable(table, ids[..k]), EvictHeads(heads, ids[..k]), ids[k];
      && x in g && g[x].realBlock < |t|
      && EvictTable(table, ids[..k + 1]) == t[g[x].realBlock := t[g[x].realBlock].(blockId := 0)]
      && EvictHeads(heads, ids[..k + 1]) == g[x := g[x].(realBlock := 0)]
  {
    var x := ids[k];
    assert x in ids;
    assert ids[..k + 1] == ids[..k] + [x];
    assert x !in ids[..k];
  }

  lemma ListNext(h: map<nat, Links>, head: nat, tail: nat, s: seq<nat>, k: nat)
    requires IsList(h, head, tail, s) && k < |s|
    ensures s[k] in h && s[k] != 0 && Distinct(s) && h[s[k]].next == (if k + 1 < |s| then s[k + 1] else 0)
  {
    assert h[s[k]] == Links(Prev(s, k), Next(s, k));
  }

  lemma ListDistinct(h: map<nat, Links>, head: nat, tail: nat, s: seq<nat>)
    requires IsList(h, head, tail, s)
    ensures Distinct(s) && 0 !in h && 0 !in s
  {
  }

  /** Cutting the second list leaves the four lists apart, and the end apart from all of them. */
  lemma ApartCut(lock: seq<nat>, unlock: seq<nat>, free: seq<nat>, fixed: seq<nat>, a: seq<nat>, b: seq<nat>)
    requires Apart(lock, unlock, free, fixed)
    requires (forall x | x in b :: x in unlock && x !in a) && (forall x | x in a :: x in unlock)
    ensures Apart(lock, a, free, fixed)
    ensures forall x | x in b :: x !in lock && x !in a && x !in free && x !in fixed
    ensures forall x | x in lock || x in free || x in fixed :: x !in Elems(unlock)
  {
  }

  /** The two parts of a list whose end was cut off into an empty list. */
  lemma CutParts(s: seq<nat>, a: seq<nat>, b: seq<nat>, h: map<nat, Links>, g: map<nat, Links>)
    requires Distinct(s) && |a| <= |s| && a == s[..|a|] && b == [] + s[|a|..]
    requires OnlyLinks(h, g, Elems(s) + Elems([]))
    ensures forall x | x in b :: x in s && x !in a
    ensures forall x | x in a :: x in s
    ensures b == s[|a|..] && OnlyLinks(h, g, Elems(s))
  {
    PartsDistinct(a, s[|a|..]);
    assert s == a + s[|a|..] && b == s[|a|..];
    assert Elems(s) + Elems([]) == Elems(s);
  }

  lemma MinusOf(h: map<nat, Links>, head: nat, tail: nat, s: seq<nat>, x: nat)
    requires IsList(h, head, tail, s)
    ensures forall y :: y in Minus(s, x) <==> y in s && y != x
    ensures 0 !in h
  {
    MinusMembers(s, x);
  }

  lemma NoZero(h: map<nat, Links>, head: nat, tail: nat, s: seq<nat>)
    requires IsList(h, head, tail, s)
    ensures 0 !in h
  {
  }

  lemma ListKept(h: map<nat, Links>, g: map<nat, Links>, head: nat, tail: nat, s: seq<nat>, id: nat)
    requires IsList(h, head, tail, s) && id != 0 && id !in s && g == h[id := Links(0, 0)]
    ensures IsList(g, head, tail, s)
  {
    assert forall x | x in s :: x in h;
  }

  /** The address of every used block. */
  ghost function Places(a: seq<Arena>): map<nat, nat> {
    map id | id in Used(a) :: Adr(a, id)
  }
}
