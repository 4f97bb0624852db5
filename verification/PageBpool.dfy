/** The buffer pool as the program runs it: an object that updates its page table, the block heads, the four
    lists, the thread table and the allocator in place. Every method is tied to the state machine of PoolModel. */
module PageBpools {
  import opened Wrappers
  import opened Sequences
  import opened Arenas
  import Moves
  import ArenaFacts
  import opened VirtualMemory
  import opened Threads
  import opened BlockLists
  import opened PoolModel
  import opened PoolInvariant
  import PoolLocking
  import opened PoolUnlocking
  import opened PoolMemory
  import PoolSafety
  import PoolRuns
  import PoolTheorems
  import opened PoolObjectFacts

  class PageBpool {
    const c: Config
    const vm: VmUnix
    const p: HeadMemory
    const threads: ThreadTable
    const lockList: BlockList
    const unlockList: BlockList
    const freeList: BlockList
    const fixedList: BlockList
    var table: seq<BlockIndex>
    var zeroAdr: nat

    /** The four lists are different objects over the same block heads. */
    ghost predicate Objects() {
      && lockList.p == p && unlockList.p == p && freeList.p == p && fixedList.p == p
      && lockList != unlockList && lockList != freeList && lockList != fixedList
      && unlockList != freeList && unlockList != fixedList && freeList != fixedList
    }

    ghost predicate ListsOk()
      reads p, lockList, unlockList, freeList, fixedList
    {
      && Objects() && p.links.Keys == p.heads.Keys && 0 !in p.links
      && lockList.Valid() && unlockList.Valid() && freeList.Valid() && fixedList.Valid()
      && Apart(lockList.elems, unlockList.elems, freeList.elems, fixedList.elems)
    }

    ghost function State(): View
      reads this, p, threads, vm, lockList, unlockList, freeList, fixedList
    {
      View(table, p.heads, lockList.elems, unlockList.elems, freeList.elems, fixedList.elems, threads.data,
           Places(vm.arena), vm.Data())
    }

    /** Loads file block 0 into pool block 0, which no list ever holds: id 0 is the null of the lists. */
    constructor (c: Config, mmap: nat)
      requires c.Valid() && mmap != 0
      ensures Valid() && State() == PoolTheorems.Start(c, zeroAdr, ZeroBlock()) && this.c == c
      ensures fresh(p) && fresh(vm) && fresh(threads) && fresh(lockList) && fresh(unlockList) && fresh(freeList) && fresh(fixedList)
    {
      hide Inv, VmUnix.Valid, Places, VmUnix.Data, ReadBlock, ZeroBlock, Contents, IsList;
      this.c := c;
      var m := new HeadMemory();
      p := m;
      lockList := new BlockList(m);
      unlockList := new BlockList(m);
      freeList := new BlockList(m);
      fixedList := new BlockList(m);
      threads := new ThreadTable();
      vm := new VmUnix(c.Reserved());
      table := seq(c.BlockCount(), (r: nat) => BlockIndex(0, {}));
      zeroAdr := 0;
      new;
      LoadZeroBlock(mmap);
    }

    /** load_zero_block. */
    method LoadZeroBlock(mmap: nat)
      requires c.Valid() && mmap != 0 && ListsOk() && threads.Valid() && vm.Valid() && vm.reserved == c.Reserved()
      requires p.heads == map[] && forall k | 0 <= k < MAX_THREAD :: threads.data[k].NoThread?
      requires lockList.elems == unlockList.elems == freeList.elems == fixedList.elems == []
      requires |table| == c.BlockCount() && forall r: nat | r < |table| :: table[r] == BlockIndex(0, {})
      requires vm.UsedIds() == {} && vm.brk == 0 && vm.mem == map[] && forall i | 0 <= i < |vm.arena| :: vm.arena[i] == Arena(0, 0, {})
      modifies this`table, this`zeroAdr, vm
      ensures Valid() && State() == PoolTheorems.Start(c, zeroAdr, ZeroBlock())
    {
      hide Inv, ListsOk, VmUnix.Valid, Places, VmUnix.Data, ReadBlock, ZeroBlock, ThreadTable.Valid, PoolTheorems.Start;
      ThreadCount(threads);
      ReadZeroBlock(mmap);
      table := table[0 := BlockIndex(0, {0, 1, 2, 3, 4, 5, 6, 7})];
      StartView(c, State(), zeroAdr);
      PoolTheorems.StartOk(c, zeroAdr, ZeroBlock());
    }

    method ReadZeroBlock(mmap: nat)
      requires c.Valid() && mmap != 0 && vm.Valid() && vm.reserved == c.Reserved()
      requires vm.UsedIds() == {} && vm.brk == 0 && vm.mem == map[] && forall i | 0 <= i < |vm.arena| :: vm.arena[i] == Arena(0, 0, {})
      modifies this`zeroAdr, vm
      ensures vm.Valid() && zeroAdr != 0
      ensures Places(vm.arena) == map[0 := zeroAdr] && vm.Data() == map[0 := ReadBlock(c, ZeroBlock(), 0)]
    {
      hide VmUnix.Valid, Places, ReadBlock, ZeroBlock, Contents, OneMore, Adr;
      ghost var a := vm.arena;
      NothingUsed(vm);
      ghost var id;
      zeroAdr, id := vm.AllocBlock(mmap);
      MorePlaces(a, vm.arena, vm.mem, zeroAdr, id);
      GrantApart(a, vm, zeroAdr, id);
      UsedBelow(vm, id);
      vm.Write(zeroAdr, ReadBlock(c, Peek(vm.mem, zeroAdr), 0), id);
    }

    // ---- the lists ----

    /** Removes a block from one list and inserts it into another; the other two do not notice. */
    static method Relist(from: BlockList, to: BlockList, a: BlockList, b: BlockList, id: nat)
      requires from.p == to.p == a.p == b.p && from != to && from != a && from != b && to != a && to != b
      requires from.Valid() && to.Valid() && a.Valid() && b.Valid() && id in from.elems
      requires Apart(from.elems, to.elems, a.elems, b.elems)
      modifies from, to, from.p`links
      ensures from.Valid() && to.Valid() && a.Valid() && b.Valid()
      ensures Apart(from.elems, to.elems, a.elems, b.elems)
      ensures from.elems == Minus(old(from.elems), id) && to.elems == [id] + old(to.elems)
      ensures from.p.links.Keys == old(from.p.links).Keys && 0 !in from.p.links
    {
      ghost var h := from.p.links;
      ghost var own := Elems(from.elems) + Elems(to.elems);
      hide IsList, OnlyLinks, Minus;
      MinusOf(h, from.head, from.tail, from.elems, id);
      from.MoveTo(to, id);
      OnlyKeys(h, from.p.links, own);
      ListOther(h, from.p.links, a.head, a.tail, a.elems, own);
      ListOther(h, from.p.links, b.head, b.tail, b.elems, own);
    }

    // ---- locking ----

    /** lock_block_head. */
    method LockBlockHead(id: nat, bit: nat, slot: Option<nat>, fix: bool, oldLock: set<nat>)
      requires ListsOk() && threads.Valid() && id in p.heads
      requires slot.Some? ==> slot.value < MAX_THREAD && threads.data[slot.value].Thread?
      requires !p.heads[id].fixedBlock ==> id in (if oldLock != {} then lockList.elems else unlockList.elems)
      modifies p, lockList, unlockList, fixedList, threads
      ensures ListsOk() && threads.Valid()
      ensures State() == LockHead(old(State()), id, bit, slot, fix, oldLock)
    {
      hide IsList, Apart, Minus, BlockList.Valid;
      var h := p.heads[id];
      if slot.Some? {
        h := WithBits(h, bit, Bits(h, bit) + {slot.value});
      }
      p.heads := p.heads[id := h];
      if h.fixedBlock {
        return;
      }
      if slot.None? || fix {
        p.heads := p.heads[id := h.(fixedBlock := true)];
        ToFixed(id, oldLock);
      } else {
        ToLock(id, oldLock);
        threads.SetBlocks(slot.value, BlocksOf(threads.data, slot.value) + {h.realBlock});
      }
    }

    method ToFixed(id: nat, oldLock: set<nat>)
      requires ListsOk() && id in (if oldLock != {} then lockList.elems else unlockList.elems)
      modifies p`links, lockList, unlockList, fixedList
      ensures ListsOk() && fixedList.elems == [id] + old(fixedList.elems)
      ensures lockList.elems == if oldLock != {} then Minus(old(lockList.elems), id) else old(lockList.elems)
      ensures unlockList.elems == if oldLock != {} then old(unlockList.elems) else Minus(old(unlockList.elems), id)
    {
      hide IsList, Minus;
      if oldLock != {} {
        Relist(lockList, fixedList, unlockList, freeList, id);
      } else {
        Relist(unlockList, fixedList, lockList, freeList, id);
      }
    }

    method ToLock(id: nat, oldLock: set<nat>)
      requires ListsOk() && id in (if oldLock != {} then lockList.elems else unlockList.elems)
      modifies p`links, lockList, unlockList
      ensures ListsOk() && fixedList.elems == old(fixedList.elems)
      ensures lockList.elems == [id] + if oldLock != {} then Minus(old(lockList.elems), id) else old(lockList.elems)
      ensures unlockList.elems == if oldLock != {} then old(unlockList.elems) else Minus(old(unlockList.elems), id)
    {
      hide IsList, Minus;
      if oldLock != {} {
        PromoteLock(id);
      } else {
        Relist(unlockList, lockList, freeList, fixedList, id);
      }
    }

    method PromoteLock(id: nat)
      requires ListsOk() && id in lockList.elems
      modifies p`links, lockList
      ensures ListsOk() && lockList.elems == [id] + Minus(old(lockList.elems), id)
    {
      ghost var h, s := p.links, lockList.elems;
      hide IsList, OnlyLinks, Minus, Without;
      MinusOf(h, lockList.head, lockList.tail, s, id);
      var moved, k := lockList.Promote(id);
      MinusKnown(h, old(lockList.head), old(lockList.tail), s, k);
      OnlyKeys(h, p.links, Elems(s));
      ListOther(h, p.links, unlockList.head, unlockList.tail, unlockList.elems, Elems(s));
      ListOther(h, p.links, freeList.head, freeList.tail, freeList.elems, Elems(s));
      ListOther(h, p.links, fixedList.head, fixedList.tail, fixedList.elems, Elems(s));
    }

    /** Inserts a block that is on no list; the other three do not notice. */
    static method InsertNew(to: BlockList, a: BlockList, b: BlockList, d: BlockList, id: nat)
      requires to.p == a.p == b.p == d.p && to != a && to != b && to != d && a != b && a != d && b != d
      requires to.Valid() && a.Valid() && b.Valid() && d.Valid() && Apart(to.elems, a.elems, b.elems, d.elems)
      requires id !in to.elems && id !in a.elems && id !in b.elems && id !in d.elems
      requires id != 0 && id in to.p.links && to.p.links[id] == Links(0, 0)
      modifies to, to.p`links
      ensures to.Valid() && a.Valid() && b.Valid() && d.Valid() && Apart(to.elems, a.elems, b.elems, d.elems)
      ensures to.elems == [id] + old(to.elems)
      ensures to.p.links.Keys == old(to.p.links).Keys && 0 !in to.p.links
    {
      ghost var h := to.p.links;
      ghost var own := {id} + Elems(to.elems);
      hide IsList, OnlyLinks;
      NoZero(h, to.head, to.tail, to.elems);
      to.Insert(id);
      OnlyKeys(h, to.p.links, own);
      ListOther(h, to.p.links, a.head, a.tail, a.elems, own);
      ListOther(h, to.p.links, b.head, b.tail, b.elems, own);
      ListOther(h, to.p.links, d.head, d.tail, d.elems, own);
    }

    /** lock_block_init. */
    method LockBlockInit(r: nat, id: nat, bit: nat, slot: Option<nat>, fix: bool)
      requires ListsOk() && threads.Valid() && id != 0
      requires id !in lockList.elems && id !in unlockList.elems && id !in freeList.elems && id !in fixedList.elems
      requires slot.Some? ==> slot.value < MAX_THREAD && threads.data[slot.value].Thread?
      modifies p, lockList, fixedList, threads
      ensures ListsOk() && threads.Valid()
      ensures State() == LockInit(c, old(State()), r, id, bit, slot, fix)
    {
      hide IsList;
      var masks := ClearMasks(if id in p.heads then p.heads[id] else ZERO_HEAD, r);
      var h := BlockHead(r, false, masks);
      ClearHead(id);
      if slot.None? || fix {
        p.heads := p.heads[id := h.(fixedBlock := true)];
        InsertNew(fixedList, lockList, unlockList, freeList, id);
      } else {
        p.heads := p.heads[id := WithBits(h, bit, Bits(h, bit) + {slot.value})];
        InsertNew(lockList, unlockList, freeList, fixedList, id);
        threads.SetBlocks(slot.value, BlocksOf(threads.data, slot.value) + {r});
      }
    }

    /** The loop over the page heads: it stops at the last page the file has. */
    method ClearMasks(h: BlockHead, r: nat) returns (masks: seq<set<nat>>)
      ensures masks == InitMasks(c, h, r)
    {
      masks := seq(BLOCK_PAGES, (i: nat) => Bits(h, i));
      var i := 0;
      while i < c.PageCount(r)
        invariant i <= c.PageCount(r) <= BLOCK_PAGES == |masks|
        invariant forall j: nat | j < BLOCK_PAGES :: masks[j] == if j < i then {} else Bits(h, j)
      {
        masks := masks[i := {}];
        i := i + 1;
      }
    }

    /** Nulls the links of a block that is on no list. */
    method ClearHead(id: nat)
      requires ListsOk() && id != 0
      requires id !in lockList.elems && id !in unlockList.elems && id !in freeList.elems && id !in fixedList.elems
      modifies p`links
      ensures lockList.Valid() && unlockList.Valid() && freeList.Valid() && fixedList.Valid()
      ensures 0 !in p.links && p.links == old(p.links)[id := Links(0, 0)]
    {
      ghost var h := p.links;
      p.links := p.links[id := Links(0, 0)];
      ListKept(h, p.links, lockList.head, lockList.tail, lockList.elems, id);
      ListKept(h, p.links, unlockList.head, unlockList.tail, unlockList.elems, id);
      ListKept(h, p.links, freeList.head, freeList.tail, freeList.elems, id);
      ListKept(h, p.links, fixedList.head, fixedList.tail, fixedList.elems, id);
      hide IsList, Apart;
    }

    // ---- eviction ----

    /** free_unlock_blocks. */
    method FreeUnlockBlocks(count: nat) returns (n: nat)
      requires ListsOk() && Inv(c, State()) && count > 0
      modifies this`table, p, unlockList, freeList
      ensures ListsOk() && State() == FreeUnlock(old(State()), count)
      ensures n > 0 <==> old(unlockList.elems) != []
      ensures n == |old(unlockList.elems)| - |unlockList.elems|
    {
      hide IsList, Inv, EvictTable, EvictHeads;
      ghost var v := State();
      var temp := new BlockList(p);
      n := CutUnlock(temp, count);
      ghost var ids := temp.elems;
      assert State() == v.(unlock := unlockList.elems);
      MutualUnlock(c, v, ids);
      if n > 0 {
        UnloadAll(temp);
        AppendFree(temp);
      } else {
        EvictNone(table, p.heads, ids);
      }
    }

    method CutUnlock(temp: BlockList, count: nat) returns (n: nat)
      requires ListsOk() && count > 0 && temp.p == p && temp.Valid() && temp.elems == []
      requires temp != lockList && temp != unlockList && temp != freeList && temp != fixedList
      modifies unlockList, temp, p`links
      ensures ListsOk() && temp.Valid() && n == |temp.elems| && (n > 0 <==> old(unlockList.elems) != [])
      ensures var k := if count < |old(unlockList.elems)| then |old(unlockList.elems)| - count else 0;
        unlockList.elems == old(unlockList.elems)[..k] && temp.elems == old(unlockList.elems)[k..]
      ensures forall x | x in temp.elems :: x !in lockList.elems && x !in unlockList.elems && x !in freeList.elems && x !in fixedList.elems
    {
      hide IsList, OnlyLinks, Distinct, Elems, Apart;
      ghost var h, s := p.links, unlockList.elems;
      ListDistinct(h, unlockList.head, unlockList.tail, s);
      n := unlockList.Truncate(temp, count);
      CutParts(s, unlockList.elems, temp.elems, h, p.links);
      ApartCut(lockList.elems, s, freeList.elems, fixedList.elems, unlockList.elems, temp.elems);
      OnlyKeys(h, p.links, Elems(s));
      ListOther(h, p.links, lockList.head, lockList.tail, lockList.elems, Elems(s));
      ListOther(h, p.links, freeList.head, freeList.tail, freeList.elems, Elems(s));
      ListOther(h, p.links, fixedList.head, fixedList.tail, fixedList.elems, Elems(s));
    }

    /** The loop of free_unlock_blocks: the file blocks of a list are not loaded any more. */
    method UnloadAll(temp: BlockList)
      requires temp.p == p && temp.Valid() && Mutual(table, p.heads, temp.elems)
      modifies this`table, p`heads
      ensures table == EvictTable(old(table), temp.elems) && p.heads == EvictHeads(old(p.heads), temp.elems)
      ensures p.heads.Keys == old(p.heads).Keys
    {
      ghost var ids := temp.elems;
      ghost var k := 0;
      var b := temp.head;
      EvictNone(table, p.heads, ids[..0]);
      while b != 0
        invariant k <= |ids| && b == (if k < |ids| then ids[k] else 0)
        invariant table == EvictTable(old(table), ids[..k]) && p.heads == EvictHeads(old(p.heads), ids[..k])
        decreases |ids| - k
      {
        ListNext(p.links, temp.head, temp.tail, ids, k);
        EvictNext(old(table), old(p.heads), ids, k);
        hide IsList, Mutual, EvictTable, EvictHeads, Distinct;
        var next := p.links[b].next;
        var r := p.heads[b].realBlock;
        table := table[r := table[r].(blockId := 0)];
        p.heads := p.heads[b := p.heads[b].(realBlock := 0)];
        b := next;
        k := k + 1;
      }
      assert ids[..k] == ids;
    }

    method AppendFree(temp: BlockList)
      requires ListsOk() && temp.p == p && temp.Valid()
      requires temp != lockList && temp != unlockList && temp != freeList && temp != fixedList
      requires forall x | x in temp.elems :: x !in lockList.elems && x !in unlockList.elems && x !in freeList.elems && x !in fixedList.elems
      modifies freeList, temp, p`links
      ensures ListsOk() && freeList.elems == old(freeList.elems) + old(temp.elems)
    {
      ghost var h := p.links;
      ghost var own := Elems(freeList.elems) + Elems(temp.elems);
      NoZero(h, freeList.head, freeList.tail, freeList.elems);
      hide IsList, OnlyLinks;
      var ok := freeList.Append(temp);
      OnlyKeys(h, p.links, own);
      ListOther(h, p.links, lockList.head, lockList.tail, lockList.elems, own);
      ListOther(h, p.links, unlockList.head, unlockList.tail, unlockList.elems, own);
      ListOther(h, p.links, fixedList.head, fixedList.tail, fixedList.elems, own);
    }

    // ---- allocation ----

    /** can_alloc_block. */
    method CanAllocBlock() returns (ok: bool)
      requires ListsOk() && vm.Valid() && vm.reserved == c.Reserved() && Inv(c, State())
      modifies this`table, p, unlockList, freeList
      ensures ListsOk() && (State(), ok) == CanAlloc(c, old(State()))
    {
      hide ListsOk, Inv, FreeUnlock, IsList, Apart, Places, VmUnix.Valid, VmUnix.Data, Config.FileSize, Config.Reserved, FreePoolBlock;
      FreeHead();
      UsedPlaces(vm);
      FreeTwo(c);
      if c.maxPool < c.FileSize() {
        if !freeList.Empty() {
          return true;
        }
        var current := vm.blockCount * BLOCK_SIZE;
        if current >= c.maxPool {
          if unlockList.elems == [] { FreeNothing(c, State(), FreePoolBlock(c, current)); }
          var n := FreeUnlockBlocks(FreePoolBlock(c, current));
          if n > 0 {
            return true;
          }
        }
        return BLOCK_SIZE <= vm.reserved * ARENA_SIZE - current;
      }
      return true;
    }

    /** alloc_block, while file block r is not loaded: the first free block, or a fresh one. */
    method AllocBlock(mmap: nat, ghost r: nat) returns (ok: bool, adr: nat, ghost given: Grant)
      requires ListsOk() && vm.Valid() && vm.reserved == c.Reserved() && Inv(c, State()) && FreshRange(vm.arena, mmap)
      requires 1 <= r < c.BlockCount() && Index(State(), r).blockId == 0
      modifies this`table, p, unlockList, freeList, vm
      ensures ListsOk() && vm.Valid() && ok == CanAlloc(c, old(State())).1
      ensures !ok ==> State() == CanAlloc(c, old(State())).0
      ensures ok ==> State() == Alloc(c, CanAlloc(c, old(State())).0, given).0
      ensures ok ==> TakenAt(State(), Alloc(c, CanAlloc(c, old(State())).0, given).1, adr)
      ensures ok && CanAlloc(c, old(State())).0.free == [] ==> GrantOk(old(State()), given)
    {
      hide Inv, ListsOk, CanAlloc, IsList, GrantOk, PoolSafety.KeepsAll, FreshRange, RangesDisjoint, SortOk, TakenAt, VmUnix.Valid, VmUnix.ValidCore;
      given := Grant(0, 0, []);
      ok := CanAllocBlock();
      if !ok {
        return false, 0, given;
      }
      PoolSafety.CanAllocKeeps(c, old(State()));
      FreeHead();
      if !freeList.Empty() {
        adr := ReuseBlock();
      } else {
        RoomForOne(c, State(), r);
        adr, given := FreshBlock(mmap);
        GrantSame(CanAlloc(c, old(State())).0, old(State()), given);
      }
    }

    lemma FreeHead()
      requires ListsOk()
      ensures Distinct(freeList.elems) && 0 !in p.links && (freeList.head == 0 <==> freeList.elems == []) && Objects()
    {
    }

    method ReuseBlock() returns (adr: nat)
      requires ListsOk() && vm.Valid() && Inv(c, State()) && freeList.elems != []
      modifies freeList, p`links
      ensures ListsOk() && State() == old(State()).(free := old(freeList.elems)[1..])
      ensures TakenAt(State(), old(freeList.elems)[0], adr)
    {
      hide IsList, OnlyLinks, Inv, VmUnix.Valid, VmUnix.ValidCore, Places, VmUnix.UsedIds, VmUnix.Data;
      ghost var v, h, s := State(), p.links, freeList.elems;
      FreeHead();
      FreeFacts(c, v);
      UsedBelow(vm, s[0]);
      var id := freeList.PopHead();
      OnlyKeys(h, p.links, Elems(s));
      ListOther(h, p.links, lockList.head, lockList.tail, lockList.elems, Elems(s));
      ListOther(h, p.links, unlockList.head, unlockList.tail, unlockList.elems, Elems(s));
      ListOther(h, p.links, fixedList.head, fixedList.tail, fixedList.elems, Elems(s));
      adr := vm.GetBlock(id);
    }

    method FreshBlock(mmap: nat) returns (adr: nat, ghost given: Grant)
      requires ListsOk() && vm.Valid() && Inv(c, State()) && FreshRange(vm.arena, mmap)
      requires |State().adr| < ARENA_BLOCKS * vm.reserved
      modifies vm
      ensures ListsOk() && vm.Valid() && GrantOk(old(State()), given)
      ensures State() == old(State()).(adr := old(State()).adr[given.id := given.adr], data := old(State()).data[given.id := given.bytes])
      ensures TakenAt(State(), given.id, adr)
    {
      hide ListsOk, Inv, Contents, Places, Adr, OneMore, FreshRange, VmUnix.Valid, VmUnix.ValidCore, Disjoint, Partition, IsList, Apart;
      ghost var v, a := State(), vm.arena;
      KeysFacts(c, v);
      UsedPlaces(vm);
      ghost var id;
      adr, id := vm.AllocBlock(mmap);
      given := Grant(id, adr, Peek(vm.mem, adr));
      MorePlaces(a, vm.arena, vm.mem, adr, id);
      GrantApart(a, vm, adr, id);
    }

    // ---- lock_page_fixed ----

    /** The object is in order: it shows a state of the machine that meets the invariant. */
    ghost predicate Valid()
      reads this, p, threads, vm, lockList, unlockList, freeList, fixedList
    {
      && ListsOk() && threads.Valid() && vm.Valid() && vm.reserved == c.Reserved() && Inv(c, State())
      && State().adr[0] == zeroAdr
    }

    /** mmap is the address the operating system gives if the allocator maps memory. */
    method LockPageFixed(tid: nat, page: nat, fix: bool, mmap: nat) returns (res: Result, ghost given: Grant)
      requires Valid() && FreshRange(vm.arena, mmap)
      modifies this`table, p, threads, vm, lockList, unlockList, freeList, fixedList
      ensures Valid() && PoolRuns.Enabled(c, old(State()), PoolRuns.LockPage(tid, page, fix, given))
      ensures (State(), res) == Lock(c, old(State()), tid, page, fix, given)
    {
      hide Inv, ListsOk, VmUnix.Valid, Places, VmUnix.Data, ThreadTable.Valid, GrantOk, PoolSafety.KeepsAll, PoolRuns.Granted, FreshRange;
      ghost var v := State();
      KeysFacts(c, v);
      ThreadFacts(c, v);
      res, given := LockPageOf(tid, page, fix, mmap);
      PoolRuns.LockOk(c, v, tid, page, fix, given);
      assert PoolSafety.SameZero(v, State()) by { SameZeroOf(v, State()); }
    }

    method LockPageOf(tid: nat, page: nat, fix: bool, mmap: nat) returns (res: Result, ghost given: Grant)
      requires Valid() && FreshRange(vm.arena, mmap)
      modifies this`table, p, threads, vm, lockList, unlockList, freeList, fixedList
      ensures ListsOk() && threads.Valid() && vm.Valid()
      ensures PoolRuns.NeedsGrant(c, old(State()), tid, page) ==> GrantOk(old(State()), given)
      ensures (State(), res) == Lock(c, old(State()), tid, page, fix, given)
    {
      hide Inv, ListsOk, VmUnix.Valid, Places, VmUnix.Data, ThreadTable.Valid, GrantOk, PoolSafety.KeepsAll, LockLoaded, LockFresh, CanAlloc, FreshRange;
      given := Grant(0, 0, []);
      var r, bit := page / 8, page % 8;
      KeysFacts(c, State());
      ThreadFacts(c, State());
      if r == 0 {
        return PageAt(zeroAdr + PAGE_SIZE * bit), given;
      }
      if c.BlockCount() <= r {
        return PageNotFound, given;
      }
      var slot := None;
      if tid != c.init {
        slot := threads.Insert(tid);
        if slot.None? {
          return TooManyThreads, given;
        }
      }
      PoolRuns.WithThreadOk(c, old(State()), tid);
      PoolRuns.SameFree(c, old(State()), State());
      if table[r].blockId != 0 {
        res := LockLoadedBlock(r, bit, slot, fix);
      } else {
        ghost var v1 := State();
        res, given := LoadBlock(r, bit, slot, fix, mmap);
        if CanAlloc(c, v1).0.free == [] { GrantSame(v1, old(State()), given); }
      }
    }

    method LoadBlock(r: nat, bit: nat, slot: Option<nat>, fix: bool, mmap: nat) returns (res: Result, ghost given: Grant)
      requires ListsOk() && threads.Valid() && vm.Valid() && vm.reserved == c.Reserved() && Inv(c, State())
      requires 1 <= r < c.BlockCount() && Index(State(), r).blockId == 0 && PoolLocking.SlotOk(State(), slot) && FreshRange(vm.arena, mmap)
      modifies this`table, p, threads, vm, lockList, unlockList, freeList, fixedList
      ensures ListsOk() && threads.Valid() && vm.Valid()
      ensures CanAlloc(c, old(State())).1
      ensures CanAlloc(c, old(State())).0.free == [] ==> GrantOk(old(State()), given)
      ensures State() == LockFresh(c, CanAlloc(c, old(State())).0, r, bit, slot, fix, given).0
      ensures res == PageAt(Place(State(), LockFresh(c, CanAlloc(c, old(State())).0, r, bit, slot, fix, given).1, bit))
    {
      hide Inv, ListsOk, CanAlloc, VmUnix.Valid, Places, VmUnix.Data, ThreadTable.Valid, GrantOk, FreshRange, PoolSafety.KeepsAll, LockInit, ReadBlock;
      ghost var v := State();
      PoolSafety.CanAllocKeeps(c, v);
      PoolRuns.CanAllocTrue(c, v, r);
      ThreadFacts(c, CanAlloc(c, v).0);
      var ok, adr;
      ok, adr, given := AllocBlock(mmap, r);
      if !ok {
        return BadAlloc, given;
      }
      ghost var x := Alloc(c, CanAlloc(c, v).0, given).1;
      assert x in Places(vm.arena) && x != 0 && adr == Places(vm.arena)[x];
      assert x !in lockList.elems && x !in unlockList.elems && x !in freeList.elems && x !in fixedList.elems;
      hide TakenAt, Alloc;
      UsedBelow(vm, x);
      PeekPlace(vm, x);
      vm.Write(adr, ReadBlock(c, Peek(vm.mem, adr), r), x);
      PeekPlace(vm, x);
      var id := vm.GetBlockId(adr);
      assert id == x;
      table := table[r := BlockIndex(id, table[r].pageLock + {bit})];
      LockBlockInit(r, id, bit, slot, fix);
      res := PageAt(adr + PAGE_SIZE * bit);
    }

    /** page_is_locked: exactly the zero block and the blocks on the lock and fixed lists are. */
    method PageIsLocked(page: nat) returns (locked: bool)
      requires Valid()
      ensures locked <==> page < 8 || (page / 8 < c.BlockCount() && PoolSafety.Pin(State(), Index(State(), page / 8).blockId))
    {
      hide Inv, ListsOk, VmUnix.Valid, Places, VmUnix.Data, ThreadTable.Valid;
      var r := page / 8;
      if r == 0 {
        return true;
      }
      if c.BlockCount() <= r {
        return false;
      }
      PinnedIff(c, State(), r);
      var x := table[r];
      return x.blockId != 0 && (x.pageLock != {} || p.heads[x.blockId].fixedBlock);
    }

    method LockLoadedBlock(r: nat, bit: nat, slot: Option<nat>, fix: bool) returns (res: Result)
      requires ListsOk() && threads.Valid() && vm.Valid() && vm.reserved == c.Reserved() && Inv(c, State())
      requires 1 <= r < c.BlockCount() && Index(State(), r).blockId != 0 && PoolLocking.SlotOk(State(), slot)
      modifies this`table, p, threads, lockList, unlockList, fixedList
      ensures ListsOk() && threads.Valid()
      ensures State() == LockLoaded(old(State()), r, bit, slot, fix)
      ensures res == PageAt(Place(State(), Index(old(State()), r).blockId, bit))
    {
      hide Inv, ListsOk, LockHead, VmUnix.Valid, Places, VmUnix.UsedIds, VmUnix.Data, ThreadTable.Valid, Partition, ThreadsOk, BlockOk;
      ghost var v := State();
      BlockFacts(c, v, r);
      LoadedList(c, v, r);
      var x := table[r];
      UsedBelow(vm, x.blockId);
      table := table[r := x.(pageLock := x.pageLock + {bit})];
      LockBlockHead(x.blockId, bit, slot, fix, x.pageLock);
      var adr := vm.GetBlock(x.blockId);
      res := PageAt(adr + PAGE_SIZE * bit);
    }

    // ---- unlocking ----

    /** unlock_block_head. */
    method UnlockBlockHead(r: nat, bit: nat, k: nat) returns (res: Unlocked)
      requires ListsOk() && r < |table| && table[r].blockId in p.heads
      requires !p.heads[table[r].blockId].fixedBlock ==> table[r].blockId in lockList.elems
      modifies this`table, p, lockList, unlockList
      ensures ListsOk() && (State(), res) == UnlockHead(old(State()), r, bit, k)
    {
      hide IsList, Minus, BlockList.Valid, Places, VmUnix.Data;
      var id := table[r].blockId;
      var h := p.heads[id];
      h := WithBits(h, bit, Bits(h, bit) - {k});
      p.heads := p.heads[id := h];
      if Bits(h, bit) != {} {
        return StillLocked;
      }
      var rest := table[r].pageLock - {bit};
      table := table[r := BlockIndex(id, rest)];
      if rest != {} {
        return StillLocked;
      }
      if h.fixedBlock {
        return Fixed;
      }
      Relist(lockList, unlockList, freeList, fixedList, id);
      return NowUnlocked;
    }

    /** The loop of unlock_page: does the thread lock another page of the block? */
    method HeldPage(id: nat, k: nat, n: nat) returns (held: bool)
      requires id in p.heads
      ensures held == HoldsPage(p.heads[id], k, n)
    {
      var i := 0;
      while i < n
        invariant i <= n && forall j: nat | j < i :: k !in Bits(p.heads[id], j)
      {
        if k in Bits(p.heads[id], i) {
          return true;
        }
        i := i + 1;
      }
      return false;
    }

    /** unlock_page. */
    method UnlockPageOf(tid: nat, page: nat) returns (res: Option<bool>)
      requires Valid()
      modifies this`table, p, threads, lockList, unlockList
      ensures Valid() && (State(), res) == Unlock(c, old(State()), tid, page)
    {
      hide Inv, ListsOk, Places, VmUnix.Data, VmUnix.Valid, ThreadTable.Valid, SamePlace, SameBut, SameIds, UnlockHead;
      ghost var v := State();
      ThreadFacts(c, v);
      UnlockPageExact(c, v, tid, page);
      SamePlaceAdr(v, Unlock(c, v, tid, page).0);
      var r, bit := page / 8, page % 8;
      if r == 0 {
        return Some(false);
      }
      if c.BlockCount() <= r {
        return None;
      }
      if tid == c.init {
        return Some(false);
      }
      if table[r].blockId == 0 || bit !in table[r].pageLock {
        return Some(false);
      }
      var k := threads.Find(tid);
      if k == |threads.data| {
        return Some(false);
      }
      res := UnlockLoaded(r, bit, k);
    }

    method UnlockLoaded(r: nat, bit: nat, k: nat) returns (res: Option<bool>)
      requires ListsOk() && threads.Valid() && Inv(c, State()) && 1 <= r < c.BlockCount()
      requires Index(State(), r).blockId != 0 && bit in Index(State(), r).pageLock && k < |threads.data| && threads.data[k].Thread?
      modifies this`table, p, threads, lockList, unlockList
      ensures ListsOk() && threads.Valid()
      ensures var (w, done) := UnlockHead(old(State()), r, bit, k);
        res == Some(done == NowUnlocked)
        && State() == if done == NowUnlocked || !HoldsPage(Head(w, Index(w, r).blockId), k, c.PageCount(r)) then ClearBlockOf(w, k, r) else w
    {
      hide Inv, ListsOk, Places, VmUnix.Data, VmUnix.Valid, ThreadTable.Valid, UnlockHead, HoldsPage, Config.PageCount;
      ghost var v := State();
      LoadedList(c, v, r);
      BlockFacts(c, v, r);
      UnlockHeadOk(c, v, r, bit, k);
      var done := UnlockBlockHead(r, bit, k);
      BlockFacts(c, State(), r);
      var held := false;
      if done != NowUnlocked {
        held := HeldPage(table[r].blockId, k, c.PageCount(r));
      }
      if !held {
        threads.SetBlocks(k, BlocksOf(threads.data, k) - {r});
      }
      res := Some(done == NowUnlocked);
    }

    /** thread_unlock_block: gives up the pages of a file block one by one until the block is unlocked. */
    method UnlockBlock(k: nat, r: nat) returns (done: bool)
      requires ListsOk() && Inv(c, State()) && 1 <= r < c.BlockCount()
      modifies this`table, p, lockList, unlockList
      ensures ListsOk() && (State(), done) == ThreadUnlockBlock(c, old(State()), k, r, 0)
    {
      hide Inv, ListsOk, Places, VmUnix.Data, UnlockHead, Config.PageCount;
      ghost var v := State();
      ThreadFacts(c, v);
      var i := 0;
      while i < c.PageCount(r)
        invariant ListsOk() && Inv(c, State()) && |table| == |old(table)|
        invariant ThreadUnlockBlock(c, v, k, r, 0) == ThreadUnlockBlock(c, State(), k, r, i)
        decreases c.PageCount(r) - i
      {
        done := UnlockOne(k, r, i);
        if done {
          return true;
        }
        i := i + 1;
      }
      return false;
    }

    /** thread_unlock_page. */
    method UnlockOne(k: nat, r: nat, i: nat) returns (done: bool)
      requires ListsOk() && Inv(c, State()) && 1 <= r < c.BlockCount()
      modifies this`table, p, lockList, unlockList
      ensures ListsOk() && Inv(c, State()) && |table| == |old(table)|
      ensures (State(), done) == ThreadUnlockPage(old(State()), k, r, i)
    {
      hide Inv, ListsOk, Places, VmUnix.Data, UnlockHead, Drops;
      ghost var v := State();
      ThreadFacts(c, v);
      if table[r].blockId != 0 && i in table[r].pageLock {
        LoadedList(c, v, r);
        UnlockHeadOk(c, v, r, i, k);
        var res := UnlockBlockHead(r, i, k);
        ThreadFacts(c, State());
        return res == NowUnlocked;
      }
      return false;
    }

    /** unlock_thread; the result is the number of blocks that became unlocked. */
    method UnlockThreadOf(tid: nat, remove: bool) returns (count: nat)
      requires Valid()
      modifies this`table, p, threads, lockList, unlockList
      ensures Valid() && (State(), count) == UnlockThread(c, old(State()), tid, remove)
    {
      hide Inv, ListsOk, Places, VmUnix.Data, VmUnix.Valid, ThreadTable.Valid, ThreadUnlockBlocks, SamePlace, ReleasedExactly;
      ghost var v := State();
      ThreadFacts(c, v);
      if tid == c.init {
        return 0;
      }
      var k := threads.Find(tid);
      if k == |threads.data| {
        return 0;
      }
      UnlockThreadExact(c, v, tid, remove);
      SamePlaceAdr(v, UnlockThread(c, v, tid, remove).0);
      count := UnlockBlocks(k);
      if remove {
        var ok := threads.Erase(tid);
      } else {
        threads.SetBlocks(k, {});
      }
    }

    /** The loop of unlock_thread over the blocks of the thread's mask, in ascending order. */
    method UnlockBlocks(k: nat) returns (count: nat)
      requires ListsOk() && Inv(c, State())
      modifies this`table, p, lockList, unlockList
      ensures ListsOk()
      ensures (State(), count) == ThreadUnlockBlocks(c, old(State()), k, BlocksOf(threads.data, k), c.BlockCount())
    {
      hide Inv, ListsOk, Places, VmUnix.Data, ThreadUnlockBlock, Released, Config.BlockCount;
      ghost var v := State();
      ThreadFacts(c, v);
      var mask := BlocksOf(threads.data, k);
      count := 0;
      var n := 0;
      while n < c.BlockCount()
        invariant n <= c.BlockCount() && ListsOk() && Inv(c, State())
        invariant (State(), count) == ThreadUnlockBlocks(c, v, k, mask, n)
      {
        ThreadUnlockBlocksOk(c, v, k, mask, n + 1);
        if n in mask && n != 0 {
          var done := UnlockBlock(k, n);
          if done {
            count := count + 1;
          }
        }
        n := n + 1;
      }
    }

    // ---- giving memory back ----

    /** page_bpool_alloc_unix::release: every block of a list goes back to the allocator; the list becomes empty. */
    method ReleaseList(list: BlockList)
      requires list.p == p && list.Valid() && vm.Valid() && forall x | x in list.elems :: x in Places(vm.arena)
      modifies p, vm, list
      ensures vm.Valid() && list.Valid() && list.elems == []
      ensures var gone := set x | x in old(list.elems);
        && p.heads == old(p.heads) - gone && p.links == old(p.links) - gone
        && Places(vm.arena) == old(Places(vm.arena)) - gone && vm.Data() == old(vm.Data()) - gone
    {
      hide IsList, VmUnix.Valid, VmUnix.Data, VmUnix.UsedIds, Places, OneMore, Adr, Distinct, ArenaFacts.UsedAt;
      ghost var ids, h := list.elems, p.links;
      ghost var places, data := Places(vm.arena), vm.Data();
      ListDistinct(h, list.head, list.tail, ids);
      NothingGone(p.heads, h, places, data, ids);
      ghost var k := 0;
      var b := list.head;
      FirstOf(h, list.head, list.tail, ids);
      while b != 0
        invariant k <= |ids| && b == (if k < |ids| then ids[k] else 0) && vm.Valid() && 0 !in p.links
        invariant p.heads == old(p.heads) - Gone(ids, k) && p.links == h - Gone(ids, k)
        invariant Places(vm.arena) == places - Gone(ids, k) && vm.Data() == data - Gone(ids, k)
        decreases |ids| - k
      {
        ListNext(h, old(list.head), old(list.tail), ids, k);
        GoneNext(old(p.heads), h, places, data, ids, k);
        hide Gone;
        var next := p.links[b].next;
        UsedBelow(vm, b);
        var adr := vm.GetBlock(b);
        ghost var a := vm.arena;
        PeekPlace(vm, b);
        var ok := vm.Release(adr, b);
        LessPlaces(a, vm.arena, adr, b);
        p.heads := p.heads - {b};
        p.links := p.links - {b};
        b := next;
        k := k + 1;
      }
      assert k == |ids| && ids[..k] == ids;
      list.Clear();
    }

    /** Gives all free blocks back. */
    method ReleaseFree()
      requires ListsOk() && vm.Valid() && Inv(c, State())
      modifies p, vm, freeList
      ensures ListsOk() && vm.Valid() && State() == Release(old(State()), old(freeList.elems)).(free := [])
    {
      hide IsList, VmUnix.Valid, VmUnix.Data, Places, Inv;
      ghost var v, h := State(), p.links;
      FreeKnown(c, v, v.free);
      ReleaseList(freeList);
      ghost var gone := set x | x in v.free;
      ListLess(h, p.links, lockList.head, lockList.tail, lockList.elems, gone);
      ListLess(h, p.links, unlockList.head, unlockList.tail, unlockList.elems, gone);
      ListLess(h, p.links, fixedList.head, fixedList.tail, fixedList.elems, gone);
    }

    /** free_unlocked. */
    method FreeAllUnlocked(decommit: bool) returns (size: nat)
      requires Valid()
      modifies this`table, p, unlockList, freeList, vm
      ensures Valid() && State() == FreeUnlocked(c, old(State()), decommit)
      ensures size == |old(unlockList.elems)|
    {
      hide Inv, ListsOk, VmUnix.Valid, Places, VmUnix.Data, ThreadTable.Valid, FreeUnlock, PoolSafety.KeepsAll, Release;
      ghost var v := State();
      KeysFacts(c, v);
      PoolSafety.FreeUnlockKeeps(c, v, c.BlockCount());
      PoolRuns.FreeUnlockedKeeps(c, v, decommit);
      SameZeroOf(v, FreeUnlocked(c, v, decommit));
      PoolTheorems.FreedAll(c, v);
      size := FreeUnlockBlocks(c.BlockCount());
      if decommit {
        ReleaseFree();
      }
    }

    /** async_release under its first mutex: how many blocks to release. */
    method AsyncReleaseChoose() returns (n: nat)
      requires Valid()
      modifies this`table, p, unlockList, freeList
      ensures Valid() && (State(), n) == AsyncChoose(c, old(State()))
    {
      hide Inv, VmUnix.Valid, Places, VmUnix.Data, ThreadTable.Valid, CanAlloc, PoolSafety.KeepsAll, IsList, Apart;
      ghost var v := State();
      KeysFacts(c, v);
      PoolSafety.CanAllocKeeps(c, v);
      SameZeroOf(v, CanAlloc(c, v).0);
      var ok := CanAllocBlock();
      FreeHead();
      n := 0;
      if ok && !freeList.Empty() {
        var length := freeList.Length();
        n := if length / 2 > 1 then length / 2 else 1;
      }
    }

    /** async_release under its second mutex. */
    method AsyncReleaseSome(n: nat)
      requires Valid()
      modifies p, freeList, vm
      ensures Valid() && State() == AsyncRelease(old(State()), n)
    {
      hide Inv, ListsOk, IsList, VmUnix.Valid, Places, VmUnix.Data, ThreadTable.Valid, PoolSafety.KeepsAll, Release;
      ghost var v := State();
      KeysFacts(c, v);
      PoolRuns.AsyncReleaseKeeps(c, v, n);
      SameZeroOf(v, AsyncRelease(v, n));
      FreeHead();
      var list := new BlockList(p);
      CutFree(list, n);
      FreeKnown(c, v, list.elems);
      ReleaseFields(v.(free := freeList.elems), v, list.elems, freeList.elems);
      ReleaseCut(list);
    }

    method ReleaseCut(list: BlockList)
      requires ListsOk() && vm.Valid() && list.p == p && list.Valid()
      requires list != lockList && list != unlockList && list != freeList && list != fixedList
      requires forall x | x in list.elems :: x in State().adr
      requires forall x | x in list.elems :: x !in lockList.elems && x !in unlockList.elems && x !in freeList.elems && x !in fixedList.elems
      modifies p, vm, list
      ensures ListsOk() && vm.Valid() && State() == Release(old(State()), old(list.elems))
    {
      hide IsList, VmUnix.Valid, Places, VmUnix.Data;
      ghost var ids, h := list.elems, p.links;
      ReleaseList(list);
      ghost var gone := set x | x in ids;
      ListLess(h, p.links, lockList.head, lockList.tail, lockList.elems, gone);
      ListLess(h, p.links, unlockList.head, unlockList.tail, unlockList.elems, gone);
      ListLess(h, p.links, freeList.head, freeList.tail, freeList.elems, gone);
      ListLess(h, p.links, fixedList.head, fixedList.tail, fixedList.elems, gone);
    }

    method CutFree(list: BlockList, n: nat)
      requires ListsOk() && list.p == p && list.Valid() && list.elems == []
      requires list != lockList && list != unlockList && list != freeList && list != fixedList
      modifies freeList, list, p`links
      ensures ListsOk() && list.Valid()
      ensures var k := if n < |old(freeList.elems)| then |old(freeList.elems)| - n else 0;
        freeList.elems == old(freeList.elems)[..k] && list.elems == old(freeList.elems)[k..]
      ensures forall x | x in list.elems :: x in old(freeList.elems) && x !in freeList.elems
    {
      ghost var h, s := p.links, freeList.elems;
      ListDistinct(h, freeList.head, freeList.tail, s);
      hide IsList, OnlyLinks, Distinct;
      var count := freeList.Truncate(list, n);
      CutParts(s, freeList.elems, list.elems, h, p.links);
      OnlyKeys(h, p.links, Elems(s));
      ListOther(h, p.links, lockList.head, lockList.tail, lockList.elems, Elems(s));
      ListOther(h, p.links, unlockList.head, unlockList.tail, unlockList.elems, Elems(s));
      ListOther(h, p.links, fixedList.head, fixedList.tail, fixedList.elems, Elems(s));
    }

    // ---- compaction ----

    /** defragment_nolock. The allocator asks about blocks one by one; only blocks of the unlock list may be moved.
        log and places say what it asked and where its blocks are. */
    method DefragmentNolock() returns (moved: bool, ghost log: seq<Moves.Call>, ghost places: map<nat, nat>)
      requires Valid()
      modifies this`table, p, unlockList, freeList, vm
      ensures Valid() && PoolRuns.Enabled(c, old(State()), PoolRuns.Compact(log, places))
      ensures State() == Defragment(c, old(State()), log, places)
      ensures Relocated(BeforeDefragment(c, old(State())), State())
      ensures moved <==> exists k :: 0 <= k < |log| && log[k].moved
      ensures forall k | 0 <= k < |log| :: log[k].moved <==> log[k].from in BeforeDefragment(c, old(State())).unlock
      ensures moved <==> State().adr.Keys != BeforeDefragment(c, old(State())).adr.Keys
      ensures OneMovable(State(), vm)
    {
      hide Inv, ListsOk, VmUnix.Valid, Places, VmUnix.Data, ThreadTable.Valid, PoolSafety.KeepsAll, Relocated, BeforeDefragment, MoveAll, Moves.LogOk, PlacesOk;
      ghost var v := State();
      KeysFacts(c, v);
      ReleaseBefore();
      PoolRuns.BeforeDefragmentOk(c, v);
      FirstUnlocked();
      moved, log, places := false, [], map[];
      if unlockList.Empty() {
        NoMoves(c, State());
        NoneMovable(State(), vm);
        places := State().adr;
      } else {
        moved, log, places := MoveUnlockedBlocks();
      }
      PoolRuns.DefragmentInvisible(c, v, log, places);
      SameZeroOf(v, State());
    }

    lemma FirstUnlocked()
      requires ListsOk()
      ensures (unlockList.head == 0 <==> unlockList.elems == []) && Objects()
    {
    }

    method ReleaseBefore()
      requires Valid()
      modifies this`table, p, unlockList, freeList, vm
      ensures ListsOk() && vm.Valid() && Inv(c, State()) && State() == BeforeDefragment(c, old(State()))
    {
      hide Inv, ListsOk, VmUnix.Valid, Places, VmUnix.Data, ThreadTable.Valid, PoolSafety.KeepsAll, CanAlloc, Release;
      ghost var v := State();
      PoolSafety.CanAllocKeeps(c, v);
      PoolRuns.BeforeDefragmentOk(c, v);
      var ok := CanAllocBlock();
      FreeHead();
      if ok && !freeList.Empty() {
        ReleaseFree();
      }
    }

    /** The second half of defragment_nolock. */
    method MoveUnlockedBlocks() returns (moved: bool, ghost log: seq<Moves.Call>, ghost places: map<nat, nat>)
      requires ListsOk() && vm.Valid() && Inv(c, State())
      modifies this`table, p, unlockList, vm
      ensures ListsOk() && vm.Valid()
      ensures Moves.LogOk(old(State()).data, log) && OnlyUnlocked(old(State()).unlock, log) && PlacesOk(old(State()).adr, log, places)
      ensures State() == MoveAll(old(State()), log, places)
      ensures moved <==> exists k :: 0 <= k < |log| && log[k].moved
      ensures forall k | 0 <= k < |log| :: log[k].moved <==> log[k].from in old(State()).unlock
      ensures moved <==> State().adr.Keys != old(State()).adr.Keys
      ensures OneMovable(State(), vm)
    {
      hide Inv, ListsOk, VmUnix.Valid, VmUnix.ValidCore, Places, VmUnix.Data, MoveAll, Moves.LogOk, PlacesOk, AllPlaces, Moves.Replays, Moves.DataAfter,
        ArenasOk, LiveIsUsed, VmUnix.SamePlaces;
      ghost var v, a := State(), vm.arena;
      var ids := UnlockedIds();
      var move := (h: seq<Moves.Call>, from: nat, to: nat) => from in ids;
      var calls;
      places := AllPlaces(a);
      PlacesApart(vm);
      moved, calls := vm.Defragment(move);
      log := calls;
      Answers(move, ids, log);
      PlacesAfter(a, vm);
      PlacesKnown(v, vm, log, places);
      MoveAllOk(c, v, log, places);
      Replay(calls, v, places);
      MovedView(c, v, vm, log, places);
      Moves.MovedChanges(v.data, log);
      SameKeys(c, v);
      SameKeys(c, State());
      NowCompact(v, State(), vm, log);
    }

    /** The pool blocks of the unlock list. */
    method UnlockedIds() returns (ids: seq<nat>)
      requires ListsOk()
      ensures ids == unlockList.elems
    {
      ids := [];
      ghost var s := unlockList.elems;
      var b := unlockList.head;
      while b != 0
        invariant ids <= s && b == (if |ids| < |s| then s[|ids|] else 0)
        decreases |s| - |ids|
      {
        ListNext(p.links, unlockList.head, unlockList.tail, s, |ids|);
        ids := ids + [b];
        b := p.links[b].next;
      }
      ListDistinct(p.links, unlockList.head, unlockList.tail, s);
    }

    /** What the accepted moves do to the page table, the heads and the unlock list. */
    method Replay(log: seq<Moves.Call>, ghost v: View, ghost places: map<nat, nat>)
      requires ListsOk() && Inv(c, v) && Moves.LogOk(v.data, log) && OnlyUnlocked(v.unlock, log) && PlacesOk(v.adr, log, places)
      requires Shown(v)
      modifies this`table, p, unlockList
      ensures ListsOk() && Shown(MoveAll(v, log, places))
    {
      hide Inv, ListsOk, Moves.LogOk, PlacesOk, OnlyUnlocked, MoveAll, MoveUnlocked;
      var k := 0;
      FirstUnlocked();
      StartMoves(v, log, places);
      while k < |log|
        invariant k <= |log| && ListsOk() && Shown(MoveAll(v, log[..k], places))
      {
        NextMove(c, v, log, k, places);
        if log[k].moved {
          MoveOne(log[k].from, log[k].to);
          MoveFields(MoveAll(v, log[..k], places), log[k].from, log[k].to, if log[k].to in places then places[log[k].to] else 0);
        }
        k := k + 1;
      }
      assert log[..k] == log;
    }

    /** The page table, the heads and the lists are those of v. */
    ghost predicate Shown(v: View)
      reads this, p, lockList, unlockList, freeList, fixedList
    {
      && table == v.table && p.heads == v.heads && lockList.elems == v.lock && unlockList.elems == v.unlock
      && freeList.elems == v.free && fixedList.elems == v.fixed
    }

    /** The callback of defragment_nolock for a block that is moved: it leaves the unlock list, the page table follows
        it, its head goes with its bytes, and it is inserted again under its new id. */
    method MoveOne(from: nat, to: nat)
      requires ListsOk() && from in unlockList.elems && from in p.heads && to !in p.heads && to != 0
      requires p.heads[from].realBlock < |table|
      modifies this`table, p, unlockList
      ensures ListsOk()
      ensures table == old(table)[old(p.heads)[from].realBlock := old(table)[old(p.heads)[from].realBlock].(blockId := to)]
      ensures p.heads == (old(p.heads) - {from})[to := old(p.heads)[from]]
      ensures unlockList.elems == [to] + Minus(old(unlockList.elems), from)
    {
      var h := p.heads[from];
      table := table[h.realBlock := table[h.realBlock].(blockId := to)];
      TakeUnlocked(from);
      p.heads := (p.heads - {from})[to := h];
      RenameHead(from, to);
      InsertNew(unlockList, lockList, freeList, fixedList, to);
    }

    /** Removes a block from the unlock list. */
    method TakeUnlocked(id: nat)
      requires ListsOk() && id in unlockList.elems
      modifies p`links, unlockList
      ensures ListsOk() && unlockList.elems == Minus(old(unlockList.elems), id)
      ensures id !in lockList.elems && id !in unlockList.elems && id !in freeList.elems && id !in fixedList.elems
    {
      ghost var h, s := p.links, unlockList.elems;
      hide IsList, OnlyLinks, Minus, Without;
      MinusOf(h, unlockList.head, unlockList.tail, s, id);
      var ok, k := unlockList.Remove(id);
      MinusKnown(h, old(unlockList.head), old(unlockList.tail), s, k);
      OnlyKeys(h, p.links, Elems(s));
      ListOther(h, p.links, lockList.head, lockList.tail, lockList.elems, Elems(s));
      ListOther(h, p.links, freeList.head, freeList.tail, freeList.elems, Elems(s));
      ListOther(h, p.links, fixedList.head, fixedList.tail, fixedList.elems, Elems(s));
    }

    /** The null links of a block that is on no list go with it to its new id. */
    method RenameHead(from: nat, to: nat)
      requires Objects() && 0 !in p.links && to != 0
      requires lockList.Valid() && unlockList.Valid() && freeList.Valid() && fixedList.Valid()
      requires from !in lockList.elems && from !in unlockList.elems && from !in freeList.elems && from !in fixedList.elems
      requires to !in lockList.elems && to !in unlockList.elems && to !in freeList.elems && to !in fixedList.elems
      modifies p`links
      ensures lockList.Valid() && unlockList.Valid() && freeList.Valid() && fixedList.Valid()
      ensures 0 !in p.links && p.links.Keys == old(p.links).Keys - {from} + {to} && p.links[to] == Links(0, 0)
    {
      ghost var h := p.links;
      hide IsList;
      p.links := (p.links - {from})[to := Links(0, 0)];
      ListRenamed(h, p.links, lockList.head, lockList.tail, lockList.elems, from, to);
      ListRenamed(h, p.links, unlockList.head, unlockList.tail, unlockList.elems, from, to);
      ListRenamed(h, p.links, freeList.head, freeList.tail, freeList.elems, from, to);
      ListRenamed(h, p.links, fixedList.head, fixedList.tail, fixedList.elems, from, to);
    }
  }
}
