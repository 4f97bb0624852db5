/** The invariant of the buffer pool, and that every call keeps it. */
module PoolInvariant {
  import Sequences
  import opened Arenas
  import opened Threads
  import opened PoolModel

  /** Sizes, and that heads, addresses and contents belong to the same pool blocks. */
  ghost predicate Shape(c: Config, v: View) {
    && c.Valid()
    && |v.table| == c.BlockCount() && |v.threads| == MAX_THREAD
    && 0 in v.adr && v.data.Keys == v.adr.Keys && v.heads.Keys == v.adr.Keys - {0}
    && (forall id | id in v.heads :: |v.heads[id].pageLockThread| == BLOCK_PAGES)
    && (forall id | id in v.data :: |v.data[id]| == BLOCK_PAGES)
  }

  /** Every pool block but the zero block is on exactly one of the four lists. */
  ghost predicate Partition(v: View) {
    && Sequences.Distinct(v.lock) && Sequences.Distinct(v.unlock) && Sequences.Distinct(v.free) && Sequences.Distinct(v.fixed)
    && (forall id :: id in v.heads <==> id in v.lock || id in v.unlock || id in v.free || id in v.fixed)
    && (forall id | id in v.lock :: id !in v.unlock && id !in v.free && id !in v.fixed)
    && (forall id | id in v.unlock :: id !in v.free && id !in v.fixed)
    && (forall id | id in v.free :: id !in v.fixed)
  }

  /** The pool block id and the file block its head names point at each other; its list tells how it is locked;
      what it shows of the file is what the file holds; and every lock on a page the file has is known to the thread table
      (lock_page_fixed also locks pages behind the end of a partial last block, which the thread table forgets). A free block
      has no locks at all. */
  ghost predicate IdOk(c: Config, v: View, id: nat)
    requires id in v.heads
  {
    var h := v.heads[id];
    var r := h.realBlock;
    var locked := Index(v, r).pageLock;
    if id in v.free then r == 0 && forall i: nat :: Bits(h, i) == {}
    else
      && 1 <= r < c.BlockCount() && Index(v, r).blockId == id
      && (id in v.fixed <==> h.fixedBlock)
      && (id in v.lock ==> locked != {}) && (id in v.unlock ==> locked == {})
      && (!h.fixedBlock ==> forall i: nat | i < BLOCK_PAGES :: i in locked <==> Bits(h, i) != {})
      && (!h.fixedBlock ==> forall i: nat, k | i < c.PageCount(r) && k in Bits(h, i) :: r in BlocksOf(v.threads, k))
      && id in v.data && Shows(c, v.data[id], r)
  }

  /** The bytes of a block are those of file block r, as far as the file goes. */
  ghost predicate Shows(c: Config, bytes: Block, r: nat) {
    forall i: nat | i < c.PageCount(r) && i < |bytes| && 8 * r + i < |c.file| :: bytes[i] == c.file[8 * r + i]
  }

  ghost predicate BlockOk(c: Config, v: View, r: nat)
    requires r < |v.table|
  {
    var x := v.table[r];
    && (forall i | i in x.pageLock :: i < BLOCK_PAGES)
    && (x.blockId == 0 ==> x.pageLock == {})
    && (x.blockId != 0 ==> x.blockId in v.heads && x.blockId !in v.free && v.heads[x.blockId].realBlock == r)
  }

  ghost predicate ThreadsOk(c: Config, s: seq<Slot>) {
    && DistinctIds(s)
    && (forall k | 0 <= k < |s| && s[k].Thread? :: s[k].id != c.init)
    && (forall k, b | 0 <= k < |s| && b in BlocksOf(s, k) :: 1 <= b < c.BlockCount())
  }

  /** No two pool blocks overlap in memory. */
  ghost predicate Disjoint(adr: map<nat, nat>) {
    && (forall x | x in adr :: adr[x] != 0)
    && (forall x, y | x in adr && y in adr && x != y ::
          adr[x] + BLOCK_SIZE <= adr[y] || adr[y] + BLOCK_SIZE <= adr[x])
  }

  ghost predicate Inv(c: Config, v: View) {
    && Shape(c, v) && Partition(v) && ThreadsOk(c, v.threads) && Disjoint(v.adr)
    && Index(v, 0) == BlockIndex(0, {0, 1, 2, 3, 4, 5, 6, 7}) && Shows(c, v.data[0], 0)
    && (forall id | id in v.heads :: IdOk(c, v, id))
    && (forall r: nat | 1 <= r < |v.table| :: BlockOk(c, v, r))
    && |v.adr| <= c.BlockCount()
  }

  // ---- changes of one block ----

  /** Every lock that was covered by the thread table still is, except possibly those on file block r. */
  ghost predicate ThreadsKeep(s: seq<Slot>, t: seq<Slot>, r: nat) {
    forall k: nat, b | b in BlocksOf(s, k) && b != r :: b in BlocksOf(t, k)
  }

  ghost predicate SameLists(v: View, w: View, x: nat) {
    forall id | id != x ::
      && (id in w.lock <==> id in v.lock) && (id in w.unlock <==> id in v.unlock)
      && (id in w.free <==> id in v.free) && (id in w.fixed <==> id in v.fixed)
  }

  /** From v to w only pool block x and file block r change, and the thread table forgets nothing else. */
  ghost predicate OnlyBlock(v: View, w: View, x: nat, r: nat) {
    && w.adr == v.adr && w.data == v.data
    && x in v.heads && w.heads == v.heads[x := Head(w, x)]
    && r < |v.table| && w.table == v.table[r := Index(w, r)]
    && SameLists(v, w, x)
    && |w.threads| == |v.threads| && ThreadsKeep(v.threads, w.threads, r)
  }

  /** A change of block x that leaves x itself in order. */
  ghost predicate GoodChange(c: Config, v: View, w: View, x: nat, r: nat) {
    && OnlyBlock(v, w, x, r)
    && |Head(w, x).pageLockThread| == BLOCK_PAGES && Head(w, x).realBlock == r && Index(w, r).blockId == x
    && Partition(w) && ThreadsOk(c, w.threads)
    && x in w.heads && IdOk(c, w, x) && r < |w.table| && BlockOk(c, w, r)
  }

  lemma LocalChange(c: Config, v: View, w: View, x: nat, r: nat)
    requires Inv(c, v) && GoodChange(c, v, w, x, r)
    requires 1 <= r && v.heads[x].realBlock == r && x !in v.free
    ensures Inv(c, w)
  {
    hide IdOk, BlockOk, Partition, ThreadsOk, Shows, Disjoint, SameLists, ThreadsKeep;
    KeepsShape(c, v, w, x, r);
    forall id | id in w.heads ensures IdOk(c, w, id) {
      if id != x { OtherId(c, v, w, x, r, id); }
    }
    forall b: nat | 1 <= b < |w.table| ensures BlockOk(c, w, b) {
      if b != r { OtherBlock(c, v, w, x, r, b); }
    }
  }

  lemma KeepsShape(c: Config, v: View, w: View, x: nat, r: nat)
    requires Shape(c, v) && OnlyBlock(v, w, x, r) && |Head(w, x).pageLockThread| == BLOCK_PAGES && 1 <= r
    ensures Shape(c, w) && Index(w, 0) == Index(v, 0) && w.heads.Keys == v.heads.Keys
  {
    hide SameLists, ThreadsKeep, Config.Valid;
  }

  lemma OtherBlock(c: Config, v: View, w: View, x: nat, r: nat, b: nat)
    requires Inv(c, v) && OnlyBlock(v, w, x, r) && 1 <= b < |v.table| && b != r
    requires Head(w, x).realBlock == r && v.heads[x].realBlock == r && x !in v.free
    ensures b < |w.table| && BlockOk(c, w, b)
  {
    assert BlockOk(c, v, b);
    hide Inv, Partition, ThreadsOk, ThreadsKeep;
  }

  lemma OtherId(c: Config, v: View, w: View, x: nat, r: nat, id: nat)
    requires Inv(c, v) && OnlyBlock(v, w, x, r) && id in v.heads && id != x && x != 0
    requires v.heads[x].realBlock == r && x !in v.free && 1 <= r
    ensures id in w.heads && IdOk(c, w, id)
  {
    assert IdOk(c, v, id);
    assert IdOk(c, v, x);
  }

  /** What the invariant says about one loaded file block. */
  lemma BlockFacts(c: Config, v: View, r: nat)
    requires Inv(c, v) && 1 <= r < c.BlockCount() && Index(v, r).blockId != 0
    ensures |v.table| == c.BlockCount() && |v.threads| == MAX_THREAD
    ensures Partition(v) && ThreadsOk(c, v.threads) && BlockOk(c, v, r) && c.PageCount(r) <= BLOCK_PAGES
    ensures Index(v, r).blockId in v.heads && Index(v, r).blockId !in v.free && Index(v, r).blockId in v.adr
    ensures |v.heads[Index(v, r).blockId].pageLockThread| == BLOCK_PAGES
    ensures v.heads[Index(v, r).blockId].realBlock == r && IdOk(c, v, Index(v, r).blockId)
  {
    assert BlockOk(c, v, r);
  }

  /** What the invariant says about one pool block. */
  lemma IdFacts(c: Config, v: View, x: nat)
    requires Inv(c, v) && x in v.heads
    ensures |v.table| == c.BlockCount() && IdOk(c, v, x) && x != 0 && x in v.adr
    ensures if x in v.free then v.heads[x].realBlock == 0
            else 1 <= v.heads[x].realBlock < c.BlockCount() && Index(v, v.heads[x].realBlock).blockId == x
  {
  }
}
