/** The arena allocator of vm_unix.cpp, for the on-demand mode the buffer pool uses. */
module VirtualMemory {
  import opened Sequences
  import opened Arenas
  import opened Moves
  import opened ArenaFacts

  class VmUnix {
    const reserved: nat
    var arena: seq<Arena>
    var brk: nat
    var freeList: nat
    var mixedList: nat
    var blockCount: nat
    var arenaCount: nat
    var sortAdr: seq<nat>
    var mem: map<nat, Block>
    ghost var mixed: seq<nat>
    ghost var free: seq<nat>

    ghost predicate Valid()
      reads this
    {
      ValidCore() && blockCount == CountUsed(arena)
    }

    /** Everything but the block counter, which alloc_block and release adjust last. */
    ghost predicate ValidCore()
      reads this
    {
      && |arena| == reserved
      && ArenasOk(arena, brk)
      && LiveIsUsed(arena)
      && RangesDisjoint(arena)
      && SortValid()
      && IsChain(arena, mixedList, mixed)
      && IsChain(arena, freeList, free)
      && ListsOk(arena, brk, mixed, free)
    }

    ghost predicate SortValid()
      reads this
    {
      SortOk(arena, sortAdr) && arenaCount == |sortAdr|
    }

    ghost function UsedIds(): set<nat>
      reads this
    {
      Used(arena)
    }

    ghost function Data(): map<nat, Block>
      reads this
    {
      Contents(arena, mem)
    }

    constructor (arenas: nat)
      requires 0 < arenas <= MAX_ARENA
      ensures Valid() && reserved == arenas && UsedIds() == {} && brk == 0 && mem == map[]
      ensures forall i | 0 <= i < |arena| :: arena[i] == Arena(0, 0, {})
    {
      reserved := arenas;
      arena := seq(arenas, i => Arena(0, 0, {}));
      brk, freeList, mixedList, blockCount, arenaCount := 0, 0, 0, 0, 0;
      sortAdr, mem := [], map[];
      mixed, free := [], [];
      new;
      CountEmpty(arena);
    }

    // ---- the address index ----

    /** std::lower_bound over the arena addresses. */
    method LowerBound(p: nat) returns (first: nat)
      requires SortOk(arena, sortAdr)
      ensures first <= |sortAdr|
      ensures forall k | 0 <= k < first :: arena[sortAdr[k]].adr < p
      ensures forall k | first <= k < |sortAdr| :: p <= arena[sortAdr[k]].adr
    {
      first := 0;
      var count := |sortAdr|;
      while count > 0
        invariant 0 <= count && first + count <= |sortAdr|
        invariant forall k | 0 <= k < first :: arena[sortAdr[k]].adr < p
        invariant forall k | first + count <= k < |sortAdr| :: p <= arena[sortAdr[k]].adr
      {
        var half := count / 2;
        if arena[sortAdr[first + half]].adr < p {
          first, count := first + half + 1, count - half - 1;
        } else {
          count := half;
        }
      }
    }

    /** The live arena whose megabyte holds address p, or reserved if there is none. */
    method FindArena(p: nat) returns (i: nat)
      requires SortOk(arena, sortAdr) && sortAdr != [] && |arena| == reserved
      ensures i < reserved ==> Within(arena[i], p)
      ensures i >= reserved ==> i == reserved && forall j | 0 <= j < reserved :: !Within(arena[j], p)
    {
      var k := LowerBound(p);
      if k < |sortAdr| {
        if arena[sortAdr[k]].adr == p {
          return sortAdr[k];
        }
        if k > 0 {
          var found := arena[sortAdr[k - 1]].adr;
          if found <= p < found + ARENA_SIZE {
            return sortAdr[k - 1];
          }
        }
      } else {
        var last := arena[sortAdr[k - 1]].adr;
        if last <= p < last + ARENA_SIZE {
          return sortAdr[k - 1];
        }
      }
      forall j | 0 <= j < reserved ensures !Within(arena[j], p) {
        if arena[j].Live() {
          var l :| 0 <= l < |sortAdr| && sortAdr[l] == j;
          if l < k - 1 { assert arena[sortAdr[l]].adr < arena[sortAdr[k - 1]].adr; }
        }
      }
      return reserved;
    }

    // ---- arenas ----

    method AllocArena(i: nat, mmap: nat)
      requires i < |arena| && !arena[i].Live()
      requires SortValid() && FreshRange(arena, mmap)
      modifies `arena, `arenaCount, `sortAdr
      ensures arena == old(arena)[i := old(arena)[i].(adr := mmap)]
      ensures SortValid()
    {
      arena := arena[i := arena[i].(adr := mmap)];
      arenaCount := arenaCount + 1;
      SortAdr(i);
    }

    /** push_back followed by std::sort: the addresses are distinct, so the result is unique. */
    method SortAdr(i: nat)
      requires i < |arena| && SortOk(arena[i := arena[i].(adr := 0)], sortAdr)
      requires FreshRange(arena[i := arena[i].(adr := 0)], arena[i].adr)
      modifies `sortAdr
      ensures SortOk(arena, sortAdr) && |sortAdr| == |old(sortAdr)| + 1
    {
      ghost var was := arena[i := arena[i].(adr := 0)];
      assert forall k | 0 <= k < |sortAdr| :: sortAdr[k] != i && was[sortAdr[k]] == arena[sortAdr[k]];
      var k := 0;
      while k < |sortAdr| && arena[sortAdr[k]].adr < arena[i].adr
        invariant k <= |sortAdr|
        invariant k > 0 ==> arena[sortAdr[k - 1]].adr < arena[i].adr
      {
        k := k + 1;
      }
      SortInsert(was, sortAdr, k, i, arena[i]);
      assert was[i := arena[i]] == arena;
      sortAdr := Inserted(sortAdr, k, i);
    }

    /** Unmaps arena i: its memory is gone. */
    method FreeArena(i: nat)
      requires i < |arena|
      requires SortValid() && RangesDisjoint(arena)
      modifies `arena, `arenaCount, `sortAdr, `mem
      ensures arena == old(arena)[i := old(arena)[i].(adr := 0)]
      ensures SortValid()
      ensures forall j, p | 0 <= j < |arena| && j != i && Within(old(arena)[j], p) :: Peek(mem, p) == Peek(old(mem), p)
    {
      if arena[i].adr != 0 {
        hide SortOk;
        var k := LowerBound(arena[i].adr);
        PlaceInIndex(arena, sortAdr, i, k);
        SortRemove(arena, sortAdr, k);
        OtherBytes(arena, i);
        sortAdr := Without(sortAdr, k);
        var start := arena[i].adr;
        mem := map p | p in mem && !(start <= p < start + ARENA_SIZE) :: mem[p];
        arena := arena[i := arena[i].(adr := 0)];
        arenaCount := arenaCount - 1;
      }
    }

    // ---- the arena lists ----

    method AddToMixed(i: nat)
      requires IsChain(arena, mixedList, mixed) && i < |arena| && i !in mixed
      modifies `arena, `mixedList, `mixed
      ensures arena == old(arena)[i := old(arena)[i].(next := old(mixedList))]
      ensures mixed == [i] + old(mixed) && IsChain(arena, mixedList, mixed)
    {
      ChainPush(arena, mixedList, mixed, i, arena[i].(next := mixedList));
      arena := arena[i := arena[i].(next := mixedList)];
      mixedList := i + 1;
      mixed := [i] + mixed;
    }

    method AddToFree(i: nat)
      requires IsChain(arena, freeList, free) && i < |arena| && i !in free
      modifies `arena, `freeList, `free
      ensures arena == old(arena)[i := old(arena)[i].(next := old(freeList))]
      ensures free == [i] + old(free) && IsChain(arena, freeList, free)
    {
      ChainPush(arena, freeList, free, i, arena[i].(next := freeList));
      arena := arena[i := arena[i].(next := freeList)];
      freeList := i + 1;
      free := [i] + free;
    }

    method RemoveFromMixed(i: nat) returns (ok: bool, ghost k: nat)
      requires IsChain(arena, mixedList, mixed) && i < |arena|
      modifies `arena, `mixedList, `mixed
      ensures ok <==> i in old(mixed)
      ensures !ok ==> arena == old(arena) && mixedList == old(mixedList) && mixed == old(mixed)
      ensures ok ==> k < |old(mixed)| && old(mixed)[k] == i && mixed == Without(old(mixed), k)
      ensures ok ==> Unlinked(old(arena), arena, old(mixed), k)
      ensures IsChain(arena, mixedList, mixed)
    {
      k := 0;
      if mixedList == 0 {
        return false, 0;
      }
      if mixedList - 1 == i {
        mixedList := arena[i].next;
        arena := arena[i := arena[i].(next := 0)];
        ChainUnlink(old(arena), arena, old(mixedList), mixed, 0);
        mixed := Without(mixed, 0);
        return true, 0;
      }
      var prev := mixedList;
      var p := arena[prev - 1].next;
      k := 1;
      while p != 0
        invariant 0 < k <= |mixed|
        invariant prev == mixed[k - 1] + 1 && p == Link(mixed, k)
        invariant i !in mixed[..k]
        decreases |mixed| - k
      {
        var q := p - 1;
        if q == i {
          arena := arena[prev - 1 := arena[prev - 1].(next := arena[q].next)];
          arena := arena[q := arena[q].(next := 0)];
          ChainUnlink(old(arena), arena, mixedList, mixed, k);
          mixed := Without(mixed, k);
          return true, k;
        }
        prev := p;
        p := arena[q].next;
        k := k + 1;
      }
      return false, 0;
    }

    // ---- alloc ----

    /** mmap is the address the operating system gives if a new arena is mapped. */
    method AllocNextArenaBlock(mmap: nat) returns (p: nat, ghost id: nat)
      requires ValidCore() && FreshRange(arena, mmap)
      modifies this
      ensures ValidCore() && unchanged(`blockCount) && unchanged(`mem)
      ensures p == 0 <==> old(brk) == reserved
      ensures p == 0 ==> unchanged(this)
      ensures p != 0 ==> OneMore(old(arena), arena, p, id) && id == ARENA_BLOCKS * old(brk)
    {
      id := 0;
      if brk >= reserved {
        return 0, 0;
      }
      var i := brk;
      brk := brk + 1;
      id := ARENA_BLOCKS * i;
      p := StartArena(i, mmap);
    }

    /** alloc_arena, set_block<0>, add_to_mixed_arena_list: the tail of both ways to open an arena. */
    method StartArena(i: nat, mmap: nat) returns (p: nat)
      requires |arena| == reserved && ArenasOk(arena, brk) && i < brk
      requires LiveIsUsed(arena) && RangesDisjoint(arena) && SortValid()
      requires IsChain(arena, mixedList, mixed) && IsChain(arena, freeList, free)
      requires FreshRange(arena, mmap) && !arena[i].Live()
      requires ListsBut(arena, brk, mixed, free, i)
      modifies `arena, `arenaCount, `sortAdr, `mixedList, `mixed
      ensures ValidCore() && p != 0
      ensures OneMore(old(arena), arena, p, ARENA_BLOCKS * i)
    {
      hide OneMore, SortOk, RangesDisjoint;
      AllocArena(i, mmap);
      ghost var a := arena;
      arena := arena[i := arena[i].(mask := arena[i].mask + {0})];
      AddToMixed(i);
      SortFrame(a, arena, sortAdr);
      OpenArena(old(arena), arena, brk, i, arena[i], old(mixed), free);
      ChainFrame(old(arena), arena, freeList, free);
      p := arena[i].adr;
    }

    method AllocBlockWithoutCount(mmap: nat) returns (p: nat, ghost id: nat)
      requires ValidCore() && FreshRange(arena, mmap)
      modifies this
      ensures ValidCore() && unchanged(`blockCount) && unchanged(`mem)
      ensures p == 0 <==> forall i | 0 <= i < reserved :: old(arena)[i].Full()
      ensures p == 0 ==> unchanged(this)
      ensures p != 0 ==> OneMore(old(arena), arena, p, id) && CountUsed(arena) == old(CountUsed(arena)) + 1
      ensures old(brk) == 0 && p != 0 ==> id == 0
      ensures old(mixed) != [] ==> unchanged(`sortAdr) && unchanged(`brk) && unchanged(`free)
      ensures old(mixed) == [] && old(free) != [] ==> unchanged(`brk)
    {
      hide SortOk, RangesDisjoint, IsChain, ListsOk, ArenasOk, LiveIsUsed;
      ListHeads();
      if brk == 0 {
        p, id := AllocNextArenaBlock(mmap);
        return;
      }
      if mixedList != 0 {
        p, id := AllocMixed();
        return;
      }
      if freeList != 0 {
        p, id := AllocFree(mmap);
        return;
      }
      AllFull(arena, brk, mixed, free);
      p, id := AllocNextArenaBlock(mmap);
    }

    lemma ListHeads()
      requires ValidCore()
      ensures (mixedList == 0 <==> mixed == []) && (freeList == 0 <==> free == [])
      ensures brk == 0 ==> mixed == [] && free == []
    {
      if mixed != [] { assert mixed[0] in mixed; }
      if free != [] { assert free[0] in free; }
    }

    /** The branch of alloc_block_without_count that maps memory for a released arena again. */
    method AllocFree(mmap: nat) returns (p: nat, ghost id: nat)
      requires ValidCore() && FreshRange(arena, mmap) && freeList != 0
      modifies `arena, `freeList, `free, `arenaCount, `sortAdr, `mixedList, `mixed
      ensures ValidCore() && p != 0
      ensures OneMore(old(arena), arena, p, id)
      ensures exists i | 0 <= i < reserved :: !old(arena)[i].Full()
    {
      hide SortOk, OneMore, RangesDisjoint;
      var i := freeList - 1;
      assert i == free[0] && i in free && 0 !in arena[i].mask;
      ChainPop(arena, freeList, free);
      freeList := arena[i].next;
      arena := arena[i := arena[i].(next := 0)];
      free := free[1..];
      SortFrame(old(arena), arena, sortAdr);
      LinkFrame(old(arena), arena);
      ChainFrame(old(arena), arena, freeList, free);
      ChainFrame(old(arena), arena, mixedList, mixed);
      ghost var a := arena;
      p := StartArena(i, mmap);
      id := ARENA_BLOCKS * i;
      OneMoreFrame(old(arena), a, arena, p, id);
    }

    /** The branch of alloc_block_without_count that serves from the mixed list. */
    method AllocMixed() returns (p: nat, ghost id: nat)
      requires ValidCore() && mixedList != 0
      modifies `arena, `mixedList, `mixed
      ensures ValidCore() && p != 0
      ensures OneMore(old(arena), arena, p, id)
      ensures exists i | 0 <= i < reserved :: !old(arena)[i].Full()
    {
      hide SortOk, OneMore, RangesDisjoint, LiveIsUsed, ArenasOk, IsChain, ListsOk;
      FirstMixed();
      var i := mixedList - 1;
      var j := FindFreeBlock(arena[i].mask);
      arena := arena[i := arena[i].(mask := arena[i].mask + {j})];
      p := arena[i].adr + j * BLOCK_SIZE;
      id := ARENA_BLOCKS * i + j;
      ChainPop(old(arena), mixedList, mixed);
      if arena[i].Full() {
        mixedList := arena[i].next;
        arena := arena[i := arena[i].(next := 0)];
        mixed := mixed[1..];
      }
      SetBlock(old(arena), arena, i, j);
      UseMixed(old(arena), arena, brk, old(mixed), free, j);
      SortFrame(old(arena), arena, sortAdr);
      ChainFrame(old(arena), arena, freeList, free);
      ChainFrame(old(arena), arena, mixedList, mixed);
    }

    lemma FirstMixed()
      requires ValidCore() && mixedList != 0
      ensures mixed != [] && mixed[0] == mixedList - 1 < |arena| && arena[mixed[0]].Mixed() && arena[mixed[0]].Live()
      ensures Distinct(mixed) && (forall x | x in mixed && x < |arena| :: x !in free)
      ensures forall x | x in mixed || x in free :: x < |arena|
    {
      assert mixed[0] in mixed;
    }

    /** Allocation fails only when every reserved block is in use. */
    method AllocBlock(mmap: nat) returns (p: nat, ghost id: nat)
      requires Valid() && FreshRange(arena, mmap)
      modifies this
      ensures Valid() && unchanged(`mem)
      ensures p == 0 <==> old(blockCount) == ARENA_BLOCKS * reserved
      ensures p == 0 ==> unchanged(this)
      ensures p != 0 ==> OneMore(old(arena), arena, p, id) && blockCount == old(blockCount) + 1
      ensures old(brk) == 0 && p != 0 ==> id == 0
      ensures old(mixed) != [] ==> unchanged(`sortAdr) && unchanged(`brk) && unchanged(`free)
      ensures old(mixed) == [] && old(free) != [] ==> unchanged(`brk)
    {
      hide OneMore, SortOk, RangesDisjoint, IsChain, ListsOk, LiveIsUsed;
      CountFull(arena);
      p, id := AllocBlockWithoutCount(mmap);
      if p != 0 {
        blockCount := blockCount + 1;
      }
    }

    // ---- ids and addresses ----

    method GetBlock(id: nat) returns (p: nat)
      requires Valid() && id < ARENA_BLOCKS * reserved
      ensures p == if id in UsedIds() then Adr(arena, id) else 0
    {
      var x := arena[id / ARENA_BLOCKS];
      if x.adr != 0 {
        if id % ARENA_BLOCKS in x.mask {
          return x.adr + id % ARENA_BLOCKS * BLOCK_SIZE;
        }
      }
      return 0;
    }

    /** Inverse of GetBlock on the used blocks. */
    method GetBlockId(p: nat) returns (id: nat)
      requires Valid() && sortAdr != []
      ensures forall x | x in UsedIds() && Adr(arena, x) == p :: id == x
      ensures (forall j | 0 <= j < reserved :: !Within(arena[j], p)) ==> id == INVALID_BLOCK
    {
      var i := FindArena(p);
      assert forall x | x in UsedIds() :: Within(arena[x / ARENA_BLOCKS], Adr(arena, x));
      if i < reserved {
        id := ARENA_BLOCKS * i + (p - arena[i].adr) / BLOCK_SIZE;
        forall x | x in UsedIds() && Adr(arena, x) == p ensures id == x {
          BlockOfAdr(arena, i, p, x);
        }
      } else {
        id := INVALID_BLOCK;
      }
    }

    // ---- release ----

    /** No arena has memory at address p. */
    ghost predicate Outside(p: nat)
      reads this
    {
      forall j | 0 <= j < |arena| :: !Within(arena[j], p)
    }

    /** p is the address of the used block id, or an address outside all arenas, which is refused. */
    method Release(p: nat, ghost id: nat) returns (ok: bool)
      requires Valid() && sortAdr != [] && (UsedAt(arena, id, p) || Outside(p))
      modifies this
      ensures Valid() && ok == old(UsedAt(arena, id, p)) && unchanged(`brk)
      ensures !ok ==> unchanged(this)
      ensures ok ==> OneMore(arena, old(arena), p, id) && Data() == old(Data()) - {id} && blockCount == old(blockCount) - 1
    {
      hide SortOk, OneMore, RangesDisjoint, LiveIsUsed, ArenasOk, ListsOk, IsChain, UsedAt;
      ok := false;
      UsedInside(id, p);
      if p != 0 {
        ok := ReleaseWithoutCount(p, id);
        if ok {
          assert CountUsed(arena) == old(CountUsed(arena)) - 1 by { OneMoreCount(arena, old(arena), p, id); }
          blockCount := blockCount - 1;
          DataMinus(old(arena), old(mem), arena, mem, p, id);
        }
      }
    }

    method ReleaseWithoutCount(p: nat, ghost id: nat) returns (ok: bool)
      requires ValidCore() && sortAdr != [] && (UsedAt(arena, id, p) || Outside(p))
      modifies this
      ensures ValidCore() && ok == old(UsedAt(arena, id, p)) && unchanged(`brk) && unchanged(`blockCount)
      ensures !ok ==> unchanged(this)
      ensures ok ==> OneMore(arena, old(arena), p, id)
      ensures ok ==> KeepsBytes(old(arena), old(mem), arena, mem)
    {
      hide SortOk, OneMore, RangesDisjoint, LiveIsUsed, ArenasOk, ListsOk, IsChain, UsedAt, Within, Used, Adr;
      UsedInside(id, p);
      var i := FindArena(p);
      if i < reserved {
        BlockAt(i, id, p);
        var j := (p - arena[i].adr) / BLOCK_SIZE;
        if arena[i].mask - {j} == {} {
          ReleaseLast(i, j);
        } else {
          ReleaseSome(i, j);
          SameMemory(old(arena), arena, mem, p, id);
        }
        ok := true;
      } else {
        ok := false;
      }
    }

    lemma UsedInside(id: nat, p: nat)
      requires ValidCore()
      ensures UsedAt(arena, id, p) ==> !Outside(p) && p != 0
    {
      if UsedAt(arena, id, p) { assert Within(arena[id / ARENA_BLOCKS], p); }
    }

    /** Which block of arena i lies at address p. */
    lemma BlockAt(i: nat, id: nat, p: nat)
      requires ValidCore() && i < reserved && Within(arena[i], p) && (UsedAt(arena, id, p) || Outside(p))
      ensures UsedAt(arena, id, p) && arena[i].adr <= p
      ensures var j := (p - arena[i].adr) / BLOCK_SIZE;
        j in arena[i].mask && id == ARENA_BLOCKS * i + j && p == arena[i].adr + j * BLOCK_SIZE
    {
      BlockOfAdr(arena, i, p, id);
    }

    /** The block was not the last one of its arena. */
    method ReleaseSome(i: nat, j: nat)
      requires ValidCore() && i < reserved && j in arena[i].mask && arena[i].mask - {j} != {}
      modifies `arena, `mixedList, `mixed
      ensures ValidCore()
      ensures OneMore(arena, old(arena), old(arena)[i].adr + j * BLOCK_SIZE, ARENA_BLOCKS * i + j)
    {
      hide SortOk, OneMore, RangesDisjoint, LiveIsUsed, ArenasOk, ListsOk, IsChain, Arena.Full;
      SomeFacts(i, j);
      arena := arena[i := arena[i].(mask := arena[i].mask - {j})];
      ChainFrame(old(arena), arena, mixedList, mixed);
      ChainFrame(old(arena), arena, freeList, free);
      KeepArena(old(arena), arena, brk, mixed, free, i, j);
      var freeBlocks := ARENA_BLOCKS - |arena[i].mask|;
      if freeBlocks == 1 {
        ghost var b := arena;
        AddToMixed(i);
        ChainFrame(b, arena, freeList, free);
        KeepArena(old(arena), arena, brk, old(mixed), free, i, j);
      }
      ClearBlock(old(arena), arena, i, j);
      SortFrame(old(arena), arena, sortAdr);
    }

    lemma SomeFacts(i: nat, j: nat)
      requires ValidCore() && i < reserved && j in arena[i].mask
      ensures j < ARENA_BLOCKS && |arena[i].mask - {j}| == |arena[i].mask| - 1
      ensures |arena[i].mask| <= ARENA_BLOCKS && (|arena[i].mask| == ARENA_BLOCKS <==> arena[i].Full())
      ensures arena[i].Full() ==> i !in free
      ensures forall x | x in mixed || x in free :: x < |arena|
    {
      MaskCard(arena[i].mask, ARENA_BLOCKS);
    }

    /** The block was the last one of its arena: the arena is unmapped. */
    method ReleaseLast(i: nat, j: nat)
      requires ValidCore() && i < reserved && j in arena[i].mask && arena[i].mask - {j} == {}
      modifies this
      ensures ValidCore() && unchanged(`brk) && unchanged(`blockCount)
      ensures OneMore(arena, old(arena), old(arena)[i].adr + j * BLOCK_SIZE, ARENA_BLOCKS * i + j)
      ensures KeepsBytes(old(arena), old(mem), arena, mem)
    {
      hide SortOk, OneMore, RangesDisjoint, Used, ListsOk, LiveIsUsed, ArenasOk, Without, Unlinked;
      LastBlock(arena, brk, mixed, free, i, j);
      ghost var a, m := arena, mem;
      arena := arena[i := arena[i].(mask := arena[i].mask - {j})];
      LinkFrame(a, arena);
      SortFrame(a, arena, sortAdr);
      ChainFrame(a, arena, mixedList, mixed);
      ChainFrame(a, arena, freeList, free);
      ghost var k, c := RetireArena(i);
      LastReleased(a, c, m, arena, mem, brk, old(mixed), k, old(free), i, j);
    }

    /** The three steps by which an emptied arena leaves the mixed list and gives up its memory. */
    method RetireArena(i: nat) returns (ghost k: nat, ghost c: seq<Arena>)
      requires IsChain(arena, mixedList, mixed) && IsChain(arena, freeList, free)
      requires i < |arena| && i in mixed && i !in free && forall x | x in mixed && x < |arena| :: x !in free
      requires RangesDisjoint(arena) && SortValid()
      modifies `arena, `mixedList, `mixed, `freeList, `free, `arenaCount, `sortAdr, `mem
      ensures IsChain(arena, mixedList, mixed) && IsChain(arena, freeList, free)
      ensures k < |old(mixed)| && old(mixed)[k] == i && Unlinked(old(arena), c, old(mixed), k)
      ensures mixed == Without(old(mixed), k) && free == [i] + old(free)
      ensures |c| == |old(arena)| && arena == c[i := Arena(0, old(freeList), old(arena)[i].mask)]
      ensures SortValid()
      ensures forall l, p | 0 <= l < |c| && l != i && Within(c[l], p) :: Peek(mem, p) == Peek(old(mem), p)
    {
      hide SortOk, RangesDisjoint, Without, Within, Peek;
      var ok;
      ok, k := RemoveFromMixed(i);
      c := arena;
      AfterUnlink(old(arena), c, old(mixed), k, freeList, free);
      SortFrame(old(arena), arena, sortAdr);
      LinkFrame(old(arena), arena);
      FreeArena(i);
      SortFrame(arena, arena[i := arena[i].(next := freeList)], sortAdr);
      ChainFrame(c, arena, mixedList, mixed);
      ChainFrame(c, arena, freeList, free);
      AddToFree(i);
      ChainFrame(c, arena, mixedList, mixed);
    }

    /** Overwrites the used block id at address p. */
    method Write(p: nat, data: Block, ghost id: nat)
      requires Valid() && id in UsedIds() && p == Adr(arena, id)
      modifies `mem
      ensures Valid() && Data() == old(Data())[id := data]
    {
      hide SortOk, RangesDisjoint, LiveIsUsed, ArenasOk, ListsOk, IsChain, CountUsed;
      OnlyAt(p, id);
      mem := mem[p := data];
    }

    lemma OnlyAt(p: nat, id: nat)
      requires Valid() && id in UsedIds() && p == Adr(arena, id)
      ensures forall x | x in UsedIds() && x != id :: Adr(arena, x) != p
    {
      forall x | x in UsedIds() && x != id ensures Adr(arena, x) != p {
        AdrInjective(arena, x, id);
      }
    }

    // ---- compaction ----

    /** The invariant while the arenas in pending are between two lists. */
    ghost predicate MidValid(pending: set<nat>)
      reads this
    {
      && |arena| == reserved
      && ArenasOk(arena, brk)
      && RangesDisjoint(arena)
      && SortValid()
      && IsChain(arena, mixedList, mixed)
      && IsChain(arena, freeList, free)
      && ListsMid(arena, brk, mixed, free, pending)
    }

    method CountMixed() returns (n: nat)
      requires IsChain(arena, mixedList, mixed)
      ensures n == |mixed|
    {
      n := 0;
      var p := mixedList;
      while p != 0
        invariant n <= |mixed| && p == Link(mixed, n)
        decreases |mixed| - n
      {
        p := arena[p - 1].next;
        n := n + 1;
      }
    }

    /** The mixed arenas in the order of their number of used blocks. */
    method CollectMixed(count: nat) returns (ms: seq<nat>)
      requires IsChain(arena, mixedList, mixed) && count == |mixed|
      ensures |ms| == |mixed| && Distinct(ms) && forall i :: i in ms <==> i in mixed
      ensures CountSorted(arena, ms)
    {
      hide IsChain, Distinct, CountSorted, Inserted;
      ms := [];
      ListStart(arena, mixedList, mixed);
      var p := mixedList;
      for n := 0 to count
        invariant p == Link(mixed, n)
        invariant |ms| == n && Distinct(ms) && CountSorted(arena, ms) && forall i :: i in ms <==> i in mixed[..n]
      {
        ListAt(arena, mixedList, mixed, n);
        var i := p - 1;
        var k := PlaceOf(ms, i);
        CountInsert(arena, ms, k, i);
        InsertedMembers(ms, k, i);
        ms := Inserted(ms, k, i);
        p := arena[i].next;
      }
      assert mixed[..count] == mixed;
    }

    /** Where std::sort puts an arena among those before it. */
    method PlaceOf(ms: seq<nat>, i: nat) returns (k: nat)
      requires CountSorted(arena, ms) && i < |arena|
      ensures k <= |ms| && (k > 0 ==> ms[k - 1] < |arena| && |arena[ms[k - 1]].mask| <= |arena[i].mask|)
      ensures k < |ms| ==> ms[k] < |arena| && |arena[i].mask| <= |arena[ms[k]].mask|
    {
      k := 0;
      while k < |ms| && |arena[ms[k]].mask| < |arena[i].mask|
        invariant k <= |ms|
        invariant k > 0 ==> |arena[ms[k - 1]].mask| <= |arena[i].mask|
      {
        k := k + 1;
      }
    }

    /** The inner loop: moves blocks of arena l into arena r until l has none left to ask about or r is full. */
    method MoveArena(l: nat, r: nat, move: MoveFun, log0: seq<Call>, ghost d: map<nat, Block>)
      returns (left: set<nat>, log: seq<Call>)
      requires MidValid({l, r}) && l < reserved && r < reserved && l != r
      requires arena[l].Mixed() && arena[r].Mixed()
      requires Data() == DataAfter(d, log0) && LogOk(d, log0) && Replays(move, log0)
      requires forall id | id in Tos(log0) :: id / ARENA_BLOCKS != l
      requires forall id | id in Froms(log0) :: id / ARENA_BLOCKS != r
      modifies `arena, `mem
      ensures MidValid({l, r})
      ensures OnlyMasks(old(arena), arena, l, r) && CountUsed(arena) == old(CountUsed(arena))
      ensures left <= arena[l].mask && !arena[l].Full() && arena[r].mask != {}
      ensures left == {} || arena[r].Full()
      ensures Data() == DataAfter(d, log) && LogOk(d, log) && Replays(move, log)
      ensures forall id | id in Tos(log) :: id in Tos(log0) || id / ARENA_BLOCKS == r
      ensures forall id | id in Froms(log) :: id in Froms(log0) || id / ARENA_BLOCKS == l
      ensures log0 <= log
      ensures forall j | j in arena[l].mask && j !in left :: Refused(log, ARENA_BLOCKS * l + j)
      ensures forall k | |log0| <= k < |log| :: log[k].from / ARENA_BLOCKS == l && log[k].to / ARENA_BLOCKS == r
    {
      hide SortOk, RangesDisjoint, IsChain, Contents, Used, CountUsed, DataAfter, LogOk, Froms, Tos, Replays;
      left := arena[l].mask;
      log := log0;
      while left != {} && !(forall j: nat | j < ARENA_BLOCKS :: j in arena[r].mask)
        invariant MidValid({l, r}) && OnlyMasks(old(arena), arena, l, r)
        invariant CountUsed(arena) == old(CountUsed(arena))
        invariant left <= arena[l].mask && !arena[l].Full() && arena[r].mask != {}
        invariant Data() == DataAfter(d, log) && LogOk(d, log) && Replays(move, log)
        invariant forall id | id in Tos(log) :: id in Tos(log0) || id / ARENA_BLOCKS == r
        invariant forall id | id in Froms(log) :: id in Froms(log0) || id / ARENA_BLOCKS == l
        invariant log0 <= log
        invariant forall j | j in arena[l].mask && j !in left :: Refused(log, ARENA_BLOCKS * l + j)
        invariant forall k | |log0| <= k < |log| :: log[k].from / ARENA_BLOCKS == l && log[k].to / ARENA_BLOCKS == r
        decreases left
      {
        ghost var left1, log1, mask1 := left, log, arena[l].mask;
        left, log := AskMove(l, r, left, move, log, d);
        KeepRefused(l, mask1, left1, log1, arena[l].mask, left, log);
      }
    }

    lemma KeepRefused(l: nat, mask0: set<nat>, left0: set<nat>, log0: seq<Call>, mask: set<nat>, left: set<nat>, log: seq<Call>)
      requires forall j | j in mask0 && j !in left0 :: Refused(log0, ARENA_BLOCKS * l + j)
      requires mask <= mask0 && log0 <= log
      requires forall j | j in mask && j in left0 && j !in left :: Refused(log, ARENA_BLOCKS * l + j)
      ensures forall j | j in mask && j !in left :: Refused(log, ARENA_BLOCKS * l + j)
    {
      hide Refused;
      forall j | j in mask && j !in left ensures Refused(log, ARENA_BLOCKS * l + j) {
        if j !in left0 { RefusedMore(log0, log, ARENA_BLOCKS * l + j); }
      }
    }

    /** One round of the inner loop: asks about the lowest block left, and moves it if the answer is yes. */
    method AskMove(l: nat, r: nat, left0: set<nat>, move: MoveFun, log0: seq<Call>, ghost d: map<nat, Block>)
      returns (left: set<nat>, log: seq<Call>)
      requires MidValid({l, r}) && l < reserved && r < reserved && l != r
      requires left0 != {} && left0 <= arena[l].mask && !arena[l].Full() && !arena[r].Full() && arena[r].mask != {}
      requires Data() == DataAfter(d, log0) && LogOk(d, log0) && Replays(move, log0)
      requires forall id | id in Tos(log0) :: id / ARENA_BLOCKS != l
      requires forall id | id in Froms(log0) :: id / ARENA_BLOCKS != r
      modifies `arena, `mem
      ensures MidValid({l, r})
      ensures OnlyMasks(old(arena), arena, l, r) && CountUsed(arena) == old(CountUsed(arena))
      ensures left < left0 && left <= arena[l].mask && !arena[l].Full() && arena[r].mask != {}
      ensures Data() == DataAfter(d, log) && LogOk(d, log) && Replays(move, log)
      ensures forall id | id in Tos(log) :: id in Tos(log0) || id / ARENA_BLOCKS == r
      ensures forall id | id in Froms(log) :: id in Froms(log0) || id / ARENA_BLOCKS == l
      ensures |log| == |log0| + 1 && log0 <= log
      ensures log[|log0|].from / ARENA_BLOCKS == l && log[|log0|].to / ARENA_BLOCKS == r
      ensures arena[l].mask <= old(arena)[l].mask
      ensures forall j | j in arena[l].mask && j in left0 && j !in left :: Refused(log, ARENA_BLOCKS * l + j)
    {
      hide SortOk, RangesDisjoint, IsChain, Contents, Used, Move, CountUsed, DataAfter, LogOk, Froms, Tos, Replays;
      var lb := FindSetBlock(left0);
      var rb := FindFreeBlock(arena[r].mask);
      var from, to := ARENA_BLOCKS * l + lb, ARENA_BLOCKS * r + rb;
      var ok := move(log0, from, to);
      Asked(arena, mem, l, r, lb, rb, log0, d);
      left := left0 - {lb};
      log := log0 + [Call(from, to, ok)];
      LogExtend(d, log0, Call(from, to, ok));
      ReplaysExtend(move, log0, Call(from, to, ok));
      IdParts(l, lb);
      IdParts(r, rb);
      assert log[|log0|] == Call(from, to, ok);
      if ok {
        MoveBlock(l, r, lb, rb);
      }
    }

    /** memcpy, clr_block, set_block. */
    method MoveBlock(l: nat, r: nat, lb: nat, rb: nat)
      requires MidValid({l, r}) && l < reserved && r < reserved && l != r
      requires lb in arena[l].mask && rb < ARENA_BLOCKS && rb !in arena[r].mask
      modifies `arena, `mem
      ensures MidValid({l, r}) && OnlyMasks(old(arena), arena, l, r)
      ensures CountUsed(arena) == old(CountUsed(arena))
      ensures Data() == Move(old(Data()), ARENA_BLOCKS * l + lb, ARENA_BLOCKS * r + rb)
      ensures arena[l].mask == old(arena)[l].mask - {lb} && arena[r].mask == old(arena)[r].mask + {rb}
    {
      hide SortOk, RangesDisjoint, IsChain, Contents, Adr, Used, Move, ListsMid;
      var src, dest := arena[l].adr + lb * BLOCK_SIZE, arena[r].adr + rb * BLOCK_SIZE;
      mem := mem[dest := Peek(mem, src)];
      arena := arena[l := arena[l].(mask := arena[l].mask - {lb})];
      arena := arena[r := arena[r].(mask := arena[r].mask + {rb})];
      MaskFrame(old(arena), arena, l, r, brk, sortAdr, mixedList, mixed, freeList, free);
      MoveData(old(arena), old(mem), arena, mem, l, r, lb, rb);
    }

    /** Live arenas stay where the state a had them. */
    ghost predicate SamePlaces(a: seq<Arena>)
      reads this
    {
      |a| == |arena| && forall i | 0 <= i < |arena| && arena[i].Live() :: arena[i].adr == a[i].adr
    }

    /** A block is offered to an arena that had as many blocks as its own, or more. */
    ghost predicate FromSparse(a: seq<Arena>, e: Call) {
      && e.from / ARENA_BLOCKS < |a| && e.to / ARENA_BLOCKS < |a|
      && |a[e.from / ARENA_BLOCKS].mask| <= |a[e.to / ARENA_BLOCKS].mask|
    }

    /** Compaction, for any answers of the callback: afterwards all mixed arenas but at most one have only blocks whose
        move was refused. */
    method Defragment(move: MoveFun) returns (moved: bool, log: seq<Call>)
      requires Valid()
      modifies `arena, `mem, `mixedList, `mixed, `freeList, `free, `arenaCount, `sortAdr
      ensures Valid()
      ensures LogOk(old(Data()), log) && Replays(move, log)
      ensures Data() == DataAfter(old(Data()), log)
      ensures SamePlaces(old(arena))
      ensures moved <==> exists k :: 0 <= k < |log| && log[k].moved
      ensures Compacted(arena, mixed, log)
      ensures (forall k | 0 <= k < |log| :: log[k].moved) ==> |mixed| <= 1
      ensures forall k | 0 <= k < |log| :: FromSparse(old(arena), log[k])
    {
      hide SortOk, RangesDisjoint, LiveIsUsed, ArenasOk, CountUsed, Replays, Contents, Used, Stuck, Refused, FromSparse, CountSorted, Compacted,
        Treating, Froms, Tos, DataAfter, LogOk;
      ReplaysNone(move);
      log := [];
      var count := CountMixed();
      if count < 2 {
        FewMixed();
        return false, [];
      }
      var ms := CollectMixed(count);
      ghost var d := Data();
      TreatAll(ms, d);
      var lh, rh := 0, |ms| - 1;
      while lh < rh
        invariant ValidCore() && CountUsed(arena) == old(CountUsed(arena))
        invariant Treating(arena, mixed, ms, lh, rh, log) && 0 <= lh && rh < |ms|
        invariant Data() == DataAfter(d, log) && LogOk(d, log) && Replays(move, log)
        invariant SamePlaces(old(arena)) && CountSorted(old(arena), ms)
        invariant forall k | 0 <= k < |log| :: FromSparse(old(arena), log[k])
        decreases rh - lh
      {
        lh, rh, log := Round(ms, lh, rh, move, log, d, old(arena));
      }
      AtMostOne(arena, mixed, ms, lh, rh, log);
      if forall k | 0 <= k < |log| :: log[k].moved {
        MixedUsed();
        AllAccepted(arena, mixed, log);
      }
      moved := exists k :: 0 <= k < |log| && log[k].moved;
    }

    /** One pass of the outer loop. */
    method Round(ms: seq<nat>, lh0: int, rh0: int, move: MoveFun, log0: seq<Call>, ghost d: map<nat, Block>, ghost a: seq<Arena>)
      returns (lh: int, rh: int, log: seq<Call>)
      requires ValidCore() && Treating(arena, mixed, ms, lh0, rh0, log0) && 0 <= lh0 < rh0 < |ms| && SamePlaces(a) && CountSorted(a, ms)
      requires forall k | 0 <= k < |log0| :: FromSparse(a, log0[k])
      requires Data() == DataAfter(d, log0) && LogOk(d, log0) && Replays(move, log0)
      modifies `arena, `mem, `mixedList, `mixed, `freeList, `free, `arenaCount, `sortAdr
      ensures ValidCore() && Treating(arena, mixed, ms, lh, rh, log) && SamePlaces(a)
      ensures CountUsed(arena) == old(CountUsed(arena))
      ensures Data() == DataAfter(d, log) && LogOk(d, log) && Replays(move, log)
      ensures rh - lh < rh0 - lh0 && 0 <= lh && rh < |ms|
      ensures forall k | 0 <= k < |log| :: FromSparse(a, log[k])
    {
      hide SortOk, RangesDisjoint, IsChain, Contents, CountUsed, Used, DataAfter, LogOk, Replays, ArenasOk, ListsMid, ListsOk, LiveIsUsed, Froms, Tos,
        Stuck, Refused, FromSparse, CountSorted, Treating;
      var l, r := ms[lh0], ms[rh0];
      lh, rh := lh0, rh0;
      BeforeRound(arena, brk, mixed, free, ms, lh, rh, log0);
      var left;
      left, log := MoveArena(l, r, move, log0, d);
      SparseMore(a, ms, lh0, rh0, log0, log);
      if left == {} {
        if arena[l].mask == {} {
          RetireEmpty(l, r);
        } else {
          NowStuck(arena, l, log);
          Settle(arena, brk, mixed, free, l, {l, r});
        }
        lh := lh + 1;
      } else {
        Settle(arena, brk, mixed, free, l, {l, r});
      }
      assert {l, r} - {l} == {r} && {r} - {r} == {};
      ghost var b := arena;
      if forall j: nat | j < ARENA_BLOCKS :: j in arena[r].mask {
        UnlinkFull(r);
        if Stuck(b, l, log) { StuckMore(b, arena, l, log, log); }
        rh := rh - 1;
      } else {
        Settle(arena, brk, mixed, free, r, {r});
      }
      AfterRound(old(arena), old(mixed), arena, mixed, ms, lh0, rh0, lh, rh, log0, log);
      MidDone(arena, brk, mixed, free);
    }

    lemma SparseMore(a: seq<Arena>, ms: seq<nat>, lh: int, rh: int, log0: seq<Call>, log: seq<Call>)
      requires CountSorted(a, ms) && 0 <= lh < rh < |ms| && log0 <= log && forall k | 0 <= k < |log0| :: FromSparse(a, log0[k])
      requires forall k | |log0| <= k < |log| :: log[k].from / ARENA_BLOCKS == ms[lh] && log[k].to / ARENA_BLOCKS == ms[rh]
      ensures forall k | 0 <= k < |log| :: FromSparse(a, log[k])
    {
      forall k | 0 <= k < |log| ensures FromSparse(a, log[k]) {
        if k < |log0| { assert log[k] == log0[k]; }
      }
    }

    /** Before the first round all mixed arenas are still to be treated. */
    lemma TreatAll(ms: seq<nat>, d: map<nat, Block>)
      requires ValidCore() && ms != [] && Distinct(ms) && forall i :: i in ms <==> i in mixed
      ensures Treating(arena, mixed, ms, 0, |ms| - 1, []) && LogOk(d, []) && DataAfter(d, []) == d
    {
      hide SortOk, RangesDisjoint;
      assert forall k | 0 <= k < |ms| :: ms[k] in mixed;
      forall i | i in mixed ensures At(ms, 0, |ms| - 1, i) {
        assert i in ms;
        var k :| 0 <= k < |ms| && ms[k] == i;
      }
    }

    lemma FewMixed()
      requires ValidCore() && |mixed| < 2
      ensures Compacted(arena, mixed, []) && LogOk(Data(), []) && DataAfter(Data(), []) == Data()
    {
      hide Stuck;
    }

    lemma MixedUsed()
      requires ValidCore()
      ensures Distinct(mixed) && forall i | i in mixed :: i < |arena| && arena[i].mask != {}
    {
    }

    /** Removes the emptied arena l from the mixed list and unmaps it. */
    method RetireEmpty(l: nat, r: nat)
      requires MidValid({l, r}) && l < reserved && r < reserved && l != r && arena[l].Empty()
      modifies `arena, `mem, `mixedList, `mixed, `freeList, `free, `arenaCount, `sortAdr
      ensures MidValid({r}) && !arena[l].Live()
      ensures OnlyArena(old(arena), arena, l) && arena[l].Empty()
      ensures forall i :: i in mixed <==> i in old(mixed) && i != l
      ensures Data() == old(Data()) && CountUsed(arena) == old(CountUsed(arena))
    {
      hide SortOk, RangesDisjoint, Unlinked, Without, IsChain;
      hide Used, Adr, ArenasOk, Within, Peek, Contents, CountUsed, ListsMid;
      MidOut(arena, brk, mixed, free, l, {l, r});
      ghost var k, c := RetireArena(l);
      MidRetire(old(arena), c, arena, brk, old(mixedList), old(mixed), k, old(free), l, r);
      LiveOrEmpty(arena, brk, mixed, free, {r});
      RetireData(old(arena), c, old(mem), arena, mem, brk, l);
    }

    /** Removes the filled arena r from the mixed list. */
    method UnlinkFull(r: nat)
      requires MidValid({r}) && r < reserved && arena[r].Full()
      modifies `arena, `mixedList, `mixed
      ensures MidValid({})
      ensures forall i | 0 <= i < reserved :: arena[i].adr == old(arena)[i].adr && arena[i].mask == old(arena)[i].mask
      ensures forall i :: i in mixed <==> i in old(mixed) && i != r
      ensures Data() == old(Data()) && CountUsed(arena) == old(CountUsed(arena))
    {
      hide SortOk, RangesDisjoint, Without, Used, Adr, ArenasOk, Peek, Contents, CountUsed, ListsMid;
      MidOut(arena, brk, mixed, free, r, {r});
      var ok, k := RemoveFromMixed(r);
      AfterUnlink(old(arena), arena, old(mixed), k, freeList, free);
      SortFrame(old(arena), arena, sortAdr);
      LinkFrame(old(arena), arena);
      MidUnlink(old(arena), arena, mem, brk, old(mixedList), old(mixed), k, free, r);
    }
  }
}
