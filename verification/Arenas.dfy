/** Arena bookkeeping of the block allocator (vm_unix.h), as values.

    An arena is one megabyte of memory cut into sixteen blocks. A 16-bit block mask
    is the set of its bit positions. Links are arena numbers plus one, with zero for null. */
module Arenas {
  import Sequences

  const PAGE_SIZE: nat := 8192
  const BLOCK_PAGES: nat := 8
  const BLOCK_SIZE: nat := 65536
  const ARENA_BLOCKS: nat := 16
  const ARENA_SIZE: nat := 1048576
  const MAX_ARENA: nat := 1048576

  newtype Byte = x: int | 0 <= x < 256
  type Page = seq<Byte>
  type Block = seq<Page>

  function ZeroPage(): Page { seq(PAGE_SIZE, (i: nat) => 0 as Byte) }

  function ZeroBlock(): Block { seq(BLOCK_PAGES, (i: nat) => ZeroPage()) }

  /** The bits of an n-bit mask. */
  predicate IsMask(m: set<nat>, n: nat) { forall j | j in m :: j < n }

  datatype Arena = Arena(adr: nat, next: nat, mask: set<nat>) {
    predicate Full() { forall j: nat | j < ARENA_BLOCKS :: j in mask }
    predicate Empty() { mask == {} }
    predicate Mixed() { !Empty() && !Full() }
    predicate Live() { adr != 0 }
  }

  /** The link that leads to position k of a list: null past its end. */
  function Link(s: seq<nat>, k: nat): nat {
    if k < |s| then s[k] + 1 else 0
  }

  /** The singly linked arena list that starts at link head visits exactly the arenas s, in order. */
  ghost predicate IsChain(a: seq<Arena>, head: nat, s: seq<nat>) {
    && Sequences.Distinct(s)
    && (forall k | 0 <= k < |s| :: s[k] < |a|)
    && head == Link(s, 0)
    && (forall k {:trigger a[s[k]]} | 0 <= k < |s| :: a[s[k]].next == Link(s, k + 1))
  }

  ghost predicate ArenasOk(a: seq<Arena>, brk: nat) {
    && brk <= |a| <= MAX_ARENA
    && (forall i | 0 <= i < |a| :: IsMask(a[i].mask, ARENA_BLOCKS))
    && (forall i | brk <= i < |a| :: a[i] == Arena(0, 0, {}))
  }

  /** An arena has memory exactly when it holds a used block. */
  ghost predicate LiveIsUsed(a: seq<Arena>) {
    forall i | 0 <= i < |a| :: a[i].Live() <==> !a[i].Empty()
  }

  ghost predicate RangesDisjoint(a: seq<Arena>) {
    forall i, j | 0 <= i < j < |a| && a[i].Live() && a[j].Live() ::
      a[i].adr + ARENA_SIZE <= a[j].adr || a[j].adr + ARENA_SIZE <= a[i].adr
  }

  /** What the operating system promises about a new mapping. */
  ghost predicate FreshRange(a: seq<Arena>, adr: nat) {
    && adr != 0
    && forall i | 0 <= i < |a| && a[i].Live() ::
         a[i].adr + ARENA_SIZE <= adr || adr + ARENA_SIZE <= a[i].adr
  }

  /** sortAdr is the permutation of the live arenas sorted by address. */
  ghost predicate SortOk(a: seq<Arena>, sortAdr: seq<nat>) {
    && (forall k | 0 <= k < |sortAdr| :: sortAdr[k] < |a| && a[sortAdr[k]].Live())
    && (forall k, l | 0 <= k < l < |sortAdr| :: a[sortAdr[k]].adr < a[sortAdr[l]].adr)
    && (forall i: nat | i < |a| && a[i].Live() :: i in sortAdr)
  }

  /** The mixed list holds the arenas with 1..15 used blocks, the free list those below brk without memory. */
  ghost predicate ListsOk(a: seq<Arena>, brk: nat, mixed: seq<nat>, free: seq<nat>) {
    && (forall i: nat | i < |a| :: i in mixed <==> a[i].Mixed())
    && (forall i: nat | i < |a| :: i in free <==> i < brk && !a[i].Live())
    && (forall i: nat | i < |a| && i !in mixed && i !in free :: a[i].next == 0)
  }

  function CountUsed(a: seq<Arena>): nat {
    if a == [] then 0 else CountUsed(a[..|a| - 1]) + |a[|a| - 1].mask|
  }

  /** Block ids are arena number times sixteen plus the bit position. */
  ghost function Used(a: seq<Arena>): set<nat> {
    set id: nat | id < ARENA_BLOCKS * |a| && id % ARENA_BLOCKS in a[id / ARENA_BLOCKS].mask
  }

  function Adr(a: seq<Arena>, id: nat): nat
    requires id / ARENA_BLOCKS < |a|
  {
    a[id / ARENA_BLOCKS].adr + id % ARENA_BLOCKS * BLOCK_SIZE
  }

  /** Memory that was never written since it was mapped is zero. */
  function Peek(mem: map<nat, Block>, adr: nat): Block {
    if adr in mem then mem[adr] else ZeroBlock()
  }

  ghost function Contents(a: seq<Arena>, mem: map<nat, Block>): map<nat, Block> {
    map id | id in Used(a) :: Peek(mem, Adr(a, id))
  }

  // ---- counting ----

  /** An n-bit mask has at most n bits set, and n only if it has all of them. */
  lemma {:induction false} MaskCard(m: set<nat>, n: nat)
    requires IsMask(m, n)
    ensures |m| <= n
    ensures |m| == n <==> forall j: nat | j < n :: j in m
  {
    if n > 0 {
      var rest := m - {n - 1};
      MaskCard(rest, n - 1);
      assert n - 1 in m ==> m == rest + {n - 1};
      assert n - 1 !in m ==> m == rest;
      if forall j: nat | j < n - 1 :: j in rest {
        assert forall j: nat | j < n - 1 :: j in m;
      }
    }
  }

  lemma {:induction false} CountUpdate(a: seq<Arena>, i: nat, x: Arena)
    requires i < |a|
    ensures CountUsed(a[i := x]) == CountUsed(a) - |a[i].mask| + |x.mask|
  {
    var b := a[i := x];
    var n := |a| - 1;
    if i == n {
      assert b[..n] == a[..n];
    } else {
      assert b[..n] == a[..n][i := x];
      CountUpdate(a[..n], i, x);
    }
  }

  lemma {:induction false} CountExtend(a: seq<Arena>, i: nat)
    requires i < |a|
    requires IsMask(a[i].mask, ARENA_BLOCKS)
    ensures CountUsed(a) - |a[i].mask| >= 0
    decreases |a|
  {
    if i < |a| - 1 { CountExtend(a[..|a| - 1], i); }
  }

  /** The counter m_alloc_block_count is the number of used block ids. */
  lemma {:induction false} UsedCount(a: seq<Arena>)
    requires forall i | 0 <= i < |a| :: IsMask(a[i].mask, ARENA_BLOCKS)
    ensures |Used(a)| == CountUsed(a) <= ARENA_BLOCKS * |a|
  {
    if a != [] {
      var n := |a| - 1;
      UsedCount(a[..n]);
      UsedSplit(a);
      ShiftedCard(a[n].mask, ARENA_BLOCKS * n);
      MaskCard(a[n].mask, ARENA_BLOCKS);
    }
  }

  ghost function Shifted(m: set<nat>, d: nat): set<nat> { set j | j in m :: d + j }

  lemma UsedSplit(a: seq<Arena>)
    requires a != [] && IsMask(a[|a| - 1].mask, ARENA_BLOCKS)
    ensures Used(a) == Used(a[..|a| - 1]) + Shifted(a[|a| - 1].mask, ARENA_BLOCKS * (|a| - 1))
    ensures Used(a[..|a| - 1]) !! Shifted(a[|a| - 1].mask, ARENA_BLOCKS * (|a| - 1))
  {
    var n := |a| - 1;
    var last := Shifted(a[n].mask, ARENA_BLOCKS * n);
    forall id: nat ensures id in Used(a) <==> id in Used(a[..n]) + last {
      if ARENA_BLOCKS * n <= id {
        assert id == ARENA_BLOCKS * n + (id - ARENA_BLOCKS * n);
      }
    }
  }

  lemma {:induction false} ShiftedCard(m: set<nat>, d: nat)
    ensures |Shifted(m, d)| == |m|
  {
    if m != {} {
      var x :| x in m;
      ShiftedCard(m - {x}, d);
      assert d + x !in Shifted(m - {x}, d);
      forall y ensures y in Shifted(m, d) <==> y in Shifted(m - {x}, d) + {d + x} {
        if y in Shifted(m, d) {
          var j :| j in m && y == d + j;
          assert j == x || j in m - {x};
        }
      }
      assert Shifted(m, d) == Shifted(m - {x}, d) + {d + x};
    }
  }

  lemma {:induction false} CountFull(a: seq<Arena>)
    requires forall i | 0 <= i < |a| :: IsMask(a[i].mask, ARENA_BLOCKS)
    ensures CountUsed(a) == ARENA_BLOCKS * |a| <==> forall i | 0 <= i < |a| :: a[i].Full()
  {
    if a != [] {
      var n := |a| - 1;
      CountFull(a[..n]);
      UsedCount(a[..n]);
      MaskCard(a[n].mask, ARENA_BLOCKS);
      assert forall i | 0 <= i < n :: a[..n][i] == a[i];
    }
  }

  // ---- lists ----

  lemma ChainPush(a: seq<Arena>, head: nat, s: seq<nat>, i: nat, x: Arena)
    requires IsChain(a, head, s) && i < |a| && i !in s
    requires x.next == head
    ensures IsChain(a[i := x], i + 1, [i] + s)
  {
    var b, t := a[i := x], [i] + s;
    forall k | 0 <= k < |t| ensures b[t[k]].next == Link(t, k + 1) {
      if k > 0 { assert t[k] == s[k - 1]; }
    }
  }

  /** Unlinking position k of a list: its predecessor (if any) takes over its link. */
  ghost predicate Unlinked(a: seq<Arena>, b: seq<Arena>, s: seq<nat>, k: nat)
    requires k < |s| && forall j | 0 <= j < |s| :: s[j] < |a|
  {
    && |b| == |a|
    && (forall i: nat | i < |a| ::
          b[i] == a[i].(next := if i == s[k] then 0 else if k > 0 && i == s[k - 1] then a[s[k]].next else a[i].next))
  }

  lemma ChainUnlink(a: seq<Arena>, b: seq<Arena>, head: nat, s: seq<nat>, k: nat)
    requires IsChain(a, head, s) && k < |s| && Unlinked(a, b, s, k)
    ensures IsChain(b, if k == 0 then a[s[0]].next else head, Sequences.Without(s, k))
  {
    var t := Sequences.Without(s, k);
    Sequences.WithoutMembers(s, k);
    forall j | 0 <= j < |t| ensures b[t[j]].next == Link(t, j + 1) {
      var i := if j < k then j else j + 1;
      assert t[j] == s[i] && s[i] != s[k];
      assert a[s[i]].next == Link(s, i + 1);
      assert b[s[i]].next == if k > 0 && i == k - 1 then a[s[k]].next else a[s[i]].next;
    }
    assert a[s[0]].next == Link(s, 1);
  }

  /** A list does not notice changes of arenas that keep the links of its members. */
  lemma ChainFrame(a: seq<Arena>, b: seq<Arena>, head: nat, s: seq<nat>)
    requires IsChain(a, head, s) && |b| == |a|
    requires forall i | i in s :: b[i].next == a[i].next
    ensures IsChain(b, head, s)
  {
  }

  // ---- block ids and addresses ----

  lemma IdParts(i: nat, j: nat)
    requires j < ARENA_BLOCKS
    ensures (ARENA_BLOCKS * i + j) / ARENA_BLOCKS == i
    ensures (ARENA_BLOCKS * i + j) % ARENA_BLOCKS == j
  {
  }

  /** Distinct used blocks lie at distinct addresses. */
  lemma AdrInjective(a: seq<Arena>, x: nat, y: nat)
    requires RangesDisjoint(a)
    requires x / ARENA_BLOCKS < |a| && y / ARENA_BLOCKS < |a|
    requires a[x / ARENA_BLOCKS].Live() && a[y / ARENA_BLOCKS].Live()
    ensures Adr(a, x) == Adr(a, y) ==> x == y
  {
    var i, j := x / ARENA_BLOCKS, y / ARENA_BLOCKS;
    if i < j {
      assert a[i].adr + ARENA_SIZE <= a[j].adr || a[j].adr + ARENA_SIZE <= a[i].adr;
    } else if j < i {
      assert a[j].adr + ARENA_SIZE <= a[i].adr || a[i].adr + ARENA_SIZE <= a[j].adr;
    }
  }

  /** Only arena i may change its address or its mask; links are free. */
  ghost predicate OnlyArena(a: seq<Arena>, b: seq<Arena>, i: nat) {
    && |b| == |a|
    && forall j | 0 <= j < |a| && j != i :: b[j].adr == a[j].adr && b[j].mask == a[j].mask
  }

  /** Changing one arena changes the use of its own blocks only. */
  lemma ChangeArena(a: seq<Arena>, b: seq<Arena>, i: nat)
    requires OnlyArena(a, b, i) && i < |a|
    ensures CountUsed(b) == CountUsed(a) - |a[i].mask| + |b[i].mask|
  {
    CountUpdate(a, i, b[i]);
    CountMasks(a[i := b[i]], b);
  }

  lemma UsedElsewhere(a: seq<Arena>, b: seq<Arena>, i: nat, id: nat)
    requires OnlyArena(a, b, i) && id / ARENA_BLOCKS != i
    ensures id in Used(b) <==> id in Used(a)
    ensures id in Used(a) ==> Adr(b, id) == Adr(a, id)
  {
  }

  lemma {:induction false} CountMasks(a: seq<Arena>, b: seq<Arena>)
    requires |a| == |b| && forall j | 0 <= j < |a| :: a[j].mask == b[j].mask
    ensures CountUsed(a) == CountUsed(b)
  {
    if a != [] { CountMasks(a[..|a| - 1], b[..|b| - 1]); }
  }

  /** Setting block j of arena i, which already has memory, uses exactly that block more. */
  lemma SetBlock(a: seq<Arena>, b: seq<Arena>, i: nat, j: nat)
    requires OnlyArena(a, b, i) && i < |a| && j < ARENA_BLOCKS && j !in a[i].mask
    requires b[i].mask == a[i].mask + {j}
    requires a[i].mask == {} || b[i].adr == a[i].adr
    ensures OneMore(a, b, b[i].adr + j * BLOCK_SIZE, ARENA_BLOCKS * i + j)
  {
    var n := ARENA_BLOCKS * i + j;
    ChangeArena(a, b, i);
    IdParts(i, j);
    forall id: nat ensures id in Used(b) <==> id in Used(a) + {n} {
      SetBlockAt(a, b, i, j, id);
    }
    assert Used(b) == Used(a) + {n};
    forall id | id in Used(a) ensures Adr(b, id) == Adr(a, id) {
      SetBlockAt(a, b, i, j, id);
    }
  }

  lemma SetBlockAt(a: seq<Arena>, b: seq<Arena>, i: nat, j: nat, id: nat)
    requires OnlyArena(a, b, i) && i < |a| && j < ARENA_BLOCKS && j !in a[i].mask
    requires b[i].mask == a[i].mask + {j}
    requires a[i].mask == {} || b[i].adr == a[i].adr
    ensures id in Used(b) <==> id in Used(a) || id == ARENA_BLOCKS * i + j
    ensures id in Used(a) ==> Adr(b, id) == Adr(a, id)
  {
    IdParts(i, j);
    if id / ARENA_BLOCKS != i { UsedElsewhere(a, b, i, id); }
  }

  /** Clearing block j of arena i frees exactly that block. */
  lemma ClearBlock(a: seq<Arena>, b: seq<Arena>, i: nat, j: nat)
    requires OnlyArena(a, b, i) && i < |a| && j < ARENA_BLOCKS && j in a[i].mask
    requires b[i].mask == a[i].mask - {j}
    requires b[i].mask == {} || b[i].adr == a[i].adr
    ensures OneMore(b, a, Adr(a, ARENA_BLOCKS * i + j), ARENA_BLOCKS * i + j)
  {
    var n := ARENA_BLOCKS * i + j;
    ChangeArena(a, b, i);
    IdParts(i, j);
    forall id: nat ensures id in Used(a) <==> id in Used(b) + {n} {
      ClearBlockAt(a, b, i, j, id);
    }
    assert Used(a) == Used(b) + {n};
    forall id | id in Used(b) ensures Adr(a, id) == Adr(b, id) {
      ClearBlockAt(a, b, i, j, id);
    }
  }

  lemma ClearBlockAt(a: seq<Arena>, b: seq<Arena>, i: nat, j: nat, id: nat)
    requires OnlyArena(a, b, i) && i < |a| && j < ARENA_BLOCKS && j in a[i].mask
    requires b[i].mask == a[i].mask - {j}
    requires b[i].mask == {} || b[i].adr == a[i].adr
    ensures id in Used(a) <==> id in Used(b) || id == ARENA_BLOCKS * i + j
    ensures id in Used(b) ==> Adr(b, id) == Adr(a, id)
  {
    IdParts(i, j);
    if id / ARENA_BLOCKS != i { UsedElsewhere(a, b, i, id); }
  }

  /** The state b has one used block more than a: block id, at address p; no other block moved. */
  ghost predicate OneMore(a: seq<Arena>, b: seq<Arena>, p: nat, id: nat) {
    && id !in Used(a) && Used(b) == Used(a) + {id}
    && CountUsed(b) == CountUsed(a) + 1
    && p == Adr(b, id)
    && forall x | x in Used(a) :: Adr(b, x) == Adr(a, x)
  }

  lemma SortFrame(a: seq<Arena>, b: seq<Arena>, s: seq<nat>)
    requires SortOk(a, s) && |b| == |a| && forall j | 0 <= j < |a| :: b[j].adr == a[j].adr
    ensures SortOk(b, s)
  {
  }

  /** Before arena i is opened the lists hold everything but i. */
  ghost predicate ListsBut(a: seq<Arena>, brk: nat, mixed: seq<nat>, free: seq<nat>, i: nat) {
    && (forall j: nat | j < |a| :: j in mixed <==> a[j].Mixed())
    && (forall j: nat | j < |a| :: j in free <==> j < brk && !a[j].Live() && j != i)
    && (forall j: nat | j < |a| && j !in mixed && j !in free :: a[j].next == 0)
  }

  lemma OpenArena(a: seq<Arena>, b: seq<Arena>, brk: nat, i: nat, x: Arena, mixed: seq<nat>, free: seq<nat>)
    requires ArenasOk(a, brk) && i < brk && !a[i].Live()
    requires LiveIsUsed(a) && RangesDisjoint(a) && FreshRange(a, x.adr)
    requires ListsBut(a, brk, mixed, free, i)
    requires x.mask == {0} && b == a[i := x]
    ensures ArenasOk(b, brk) && LiveIsUsed(b) && RangesDisjoint(b)
    ensures ListsOk(b, brk, [i] + mixed, free)
    ensures OneMore(a, b, x.adr, ARENA_BLOCKS * i)
  {
    SetBlock(a, b, i, 0);
    hide OneMore, CountUsed, Used, Adr;
    assert 1 !in x.mask;
    forall j: nat | j < |b| ensures j in [i] + mixed <==> b[j].Mixed() {}
  }

  /** find_free_block: the lowest clear bit of a mask that is not full. */
  method FindFreeBlock(m: set<nat>) returns (j: nat)
    requires exists i: nat :: i < ARENA_BLOCKS && i !in m
    ensures j < ARENA_BLOCKS && j !in m && forall i: nat | i < j :: i in m
  {
    j := 0;
    while j in m
      invariant j <= ARENA_BLOCKS && forall i: nat | i < j :: i in m
      decreases ARENA_BLOCKS - j
    {
      j := j + 1;
    }
  }

  /** find_set_block: the lowest set bit of a mask that is not empty. */
  method FindSetBlock(m: set<nat>) returns (j: nat)
    requires m != {} && IsMask(m, ARENA_BLOCKS)
    ensures j in m && forall i: nat | i < j :: i !in m
  {
    j := 0;
    while j !in m
      invariant j <= ARENA_BLOCKS && forall i: nat | i < j :: i !in m
      decreases ARENA_BLOCKS - j
    {
      j := j + 1;
    }
  }

  /** Using one more block of the first mixed arena; if that fills it, it leaves the list. */
  lemma UseMixed(a: seq<Arena>, b: seq<Arena>, brk: nat, mixed: seq<nat>, free: seq<nat>, j: nat)
    requires ArenasOk(a, brk) && LiveIsUsed(a) && RangesDisjoint(a) && ListsOk(a, brk, mixed, free)
    requires Sequences.Distinct(mixed) && mixed != [] && mixed[0] < |a|
    requires j < ARENA_BLOCKS && j !in a[mixed[0]].mask
    requires |b| == |a| && b == a[mixed[0] := b[mixed[0]]]
    requires b[mixed[0]].mask == a[mixed[0]].mask + {j} && b[mixed[0]].adr == a[mixed[0]].adr
    requires b[mixed[0]].next == if b[mixed[0]].Full() then 0 else a[mixed[0]].next
    ensures ArenasOk(b, brk) && LiveIsUsed(b) && RangesDisjoint(b)
    ensures ListsOk(b, brk, if b[mixed[0]].Full() then mixed[1..] else mixed, free)
  {
    var i := mixed[0];
    assert i in mixed;
    assert j in b[i].mask;
    assert forall k :: k in mixed[1..] <==> k in mixed && k != i;
  }

  /** Clearing a block of an arena that keeps others: a full arena becomes mixed. */
  lemma KeepArena(a: seq<Arena>, b: seq<Arena>, brk: nat, mixed: seq<nat>, free: seq<nat>, i: nat, j: nat)
    requires ArenasOk(a, brk) && LiveIsUsed(a) && RangesDisjoint(a) && ListsOk(a, brk, mixed, free)
    requires i < |a| && |b| == |a| && b == a[i := b[i]] && j < ARENA_BLOCKS && j in a[i].mask
    requires b[i].mask == a[i].mask - {j} && b[i].mask != {} && b[i].adr == a[i].adr
    requires !a[i].Full() ==> b[i].next == a[i].next
    ensures ArenasOk(b, brk) && LiveIsUsed(b) && RangesDisjoint(b)
    ensures ListsOk(b, brk, if a[i].Full() then [i] + mixed else mixed, free)
    ensures i in mixed <==> !a[i].Full()
  {
    assert j !in b[i].mask;
    assert b[i].Mixed();
    assert forall k :: k in [i] + mixed <==> k == i || k in mixed;
  }

  /** An emptied arena leaves the mixed list, gives up its memory and joins the free list. */
  lemma CloseArena(a: seq<Arena>, b: seq<Arena>, brk: nat, mixed: seq<nat>, rest: seq<nat>, free: seq<nat>, i: nat)
    requires ArenasOk(a, brk) && LiveIsUsed(a) && RangesDisjoint(a) && ListsOk(a, brk, mixed, free)
    requires i < |a| && |b| == |a| && a[i].Live()
    requires forall k :: k in rest <==> k in mixed && k != i
    requires forall j | 0 <= j < |a| && j != i :: b[j].mask == a[j].mask && b[j].adr == a[j].adr
    requires forall j: nat | j < |a| && j !in mixed && j != i :: b[j].next == a[j].next
    requires b[i].adr == 0 && b[i].mask == {}
    ensures ArenasOk(b, brk) && LiveIsUsed(b) && RangesDisjoint(b)
    ensures ListsOk(b, brk, rest, [i] + free)
  {
    assert forall k :: k in [i] + free <==> k == i || k in free;
    forall j | brk <= j < |b| ensures b[j] == Arena(0, 0, {}) {
      assert !a[j].Live();
    }
  }
}
