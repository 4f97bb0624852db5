/** What the steps of the allocator do to the arenas: the lemmas behind vm_unix.cpp. */
module ArenaFacts {
  import opened Sequences
  import opened Arenas
  import opened Moves

  /** The mixed arenas of ms at positions lh..rh are still to be treated; sources lie at or before lh,
      targets at or after rh; any other arena that is still mixed has only blocks whose move was refused. */
  ghost predicate Treating(a: seq<Arena>, mixed: seq<nat>, ms: seq<nat>, lh: int, rh: int, log: seq<Call>) {
    && 0 <= lh <= rh + 1 <= |ms| && Distinct(ms)
    && (forall k | 0 <= k < |ms| :: ms[k] < |a|)
    && (forall k | lh <= k <= rh :: a[ms[k]].Mixed())
    && (forall id | id in Froms(log) :: At(ms, 0, lh, id / ARENA_BLOCKS))
    && (forall id | id in Tos(log) :: At(ms, rh, |ms| - 1, id / ARENA_BLOCKS))
    && (forall i | i in mixed :: At(ms, lh, rh, i) || Stuck(a, i, log))
  }

  ghost predicate At(ms: seq<nat>, lo: int, hi: int, i: nat) {
    exists k :: 0 <= k < |ms| && lo <= k <= hi && ms[k] == i
  }

  /** Every block of the arena was asked about, and its move refused. */
  ghost predicate Stuck(a: seq<Arena>, i: nat, log: seq<Call>) {
    i < |a| && forall b | b in a[i].mask :: Refused(log, ARENA_BLOCKS * i + b)
  }

  lemma StuckMore(a: seq<Arena>, b: seq<Arena>, i: nat, log: seq<Call>, more: seq<Call>)
    requires Stuck(a, i, log) && log <= more && i < |b| && b[i].mask == a[i].mask
    ensures Stuck(b, i, more)
  {
    hide Refused;
    forall j | j in b[i].mask ensures Refused(more, ARENA_BLOCKS * i + j) { RefusedMore(log, more, ARENA_BLOCKS * i + j); }
  }

  lemma BeforeRound(a: seq<Arena>, brk: nat, mixed: seq<nat>, free: seq<nat>, ms: seq<nat>, lh: int, rh: int, log: seq<Call>)
    requires ArenasOk(a, brk) && LiveIsUsed(a) && ListsOk(a, brk, mixed, free)
    requires Treating(a, mixed, ms, lh, rh, log) && lh < rh
    ensures ms[lh] != ms[rh] && ListsMid(a, brk, mixed, free, {ms[lh], ms[rh]})
    ensures ms[lh] < |a| && ms[rh] < |a| && a[ms[lh]].Mixed() && a[ms[rh]].Mixed()
    ensures forall id | id in Tos(log) :: id / ARENA_BLOCKS != ms[lh]
    ensures forall id | id in Froms(log) :: id / ARENA_BLOCKS != ms[rh]
  {
  }

  lemma AfterRound(a: seq<Arena>, mixed0: seq<nat>, b: seq<Arena>, mixed: seq<nat>, ms: seq<nat>,
                   lh0: int, rh0: int, lh: int, rh: int, log0: seq<Call>, log: seq<Call>)
    requires Treating(a, mixed0, ms, lh0, rh0, log0) && lh0 < rh0 && |b| == |a|
    requires lh0 <= lh <= lh0 + 1 && rh0 - 1 <= rh <= rh0
    requires forall i: nat | i < |a| && i != ms[lh0] && i != ms[rh0] :: b[i].mask == a[i].mask
    requires lh == lh0 ==> b[ms[lh0]].Mixed()
    requires rh == rh0 ==> b[ms[rh0]].Mixed()
    requires forall i | i in mixed :: i in mixed0
    requires lh > lh0 && ms[lh0] in mixed ==> Stuck(b, ms[lh0], log)
    requires rh < rh0 ==> ms[rh0] !in mixed
    requires forall id | id in Tos(log) :: id in Tos(log0) || id / ARENA_BLOCKS == ms[rh0]
    requires forall id | id in Froms(log) :: id in Froms(log0) || id / ARENA_BLOCKS == ms[lh0]
    requires log0 <= log
    ensures Treating(b, mixed, ms, lh, rh, log)
  {
    forall id | id in Froms(log) ensures At(ms, 0, lh, id / ARENA_BLOCKS) {}
    forall id | id in Tos(log) ensures At(ms, rh, |ms| - 1, id / ARENA_BLOCKS) {}
    hide Froms, Tos, Stuck;
    forall i | i in mixed ensures At(ms, lh, rh, i) || Stuck(b, i, log) { StillMixed(a, mixed0, b, mixed, ms, lh0, rh0, lh, rh, log0, log, i); }
  }

  lemma StillMixed(a: seq<Arena>, mixed0: seq<nat>, b: seq<Arena>, mixed: seq<nat>, ms: seq<nat>,
                   lh0: int, rh0: int, lh: int, rh: int, log0: seq<Call>, log: seq<Call>, i: nat)
    requires Treating(a, mixed0, ms, lh0, rh0, log0) && lh0 < rh0 && |b| == |a|
    requires lh0 <= lh <= lh0 + 1 && rh0 - 1 <= rh <= rh0
    requires forall i: nat | i < |a| && i != ms[lh0] && i != ms[rh0] :: b[i].mask == a[i].mask
    requires i in mixed && i in mixed0
    requires lh > lh0 && ms[lh0] in mixed ==> Stuck(b, ms[lh0], log)
    requires rh < rh0 ==> ms[rh0] !in mixed
    requires log0 <= log
    ensures At(ms, lh, rh, i) || Stuck(b, i, log)
  {
    hide Froms, Tos, Stuck, Distinct;
    if At(ms, lh0, rh0, i) {
      var k :| 0 <= k < |ms| && lh0 <= k <= rh0 && ms[k] == i;
    } else {
      assert ms[lh0] != i && ms[rh0] != i;
      StuckInside(a, i, log0);
      StuckMore(a, b, i, log0, log);
    }
  }

  lemma StuckInside(a: seq<Arena>, i: nat, log: seq<Call>)
    requires Stuck(a, i, log)
    ensures i < |a|
  {
  }

  lemma MidDone(a: seq<Arena>, brk: nat, mixed: seq<nat>, free: seq<nat>)
    requires ListsMid(a, brk, mixed, free, {})
    ensures LiveIsUsed(a) && ListsOk(a, brk, mixed, free)
  {
  }

  lemma MidOut(a: seq<Arena>, brk: nat, mixed: seq<nat>, free: seq<nat>, l: nat, pending: set<nat>)
    requires ListsMid(a, brk, mixed, free, pending) && l in pending && l < |a|
    ensures l in mixed && l !in free && a[l].Live()
    ensures forall x | x in mixed && x < |a| :: x !in free
  {
  }

  /** Links do not matter for the contents. */
  lemma SameContents(a: seq<Arena>, b: seq<Arena>, m: map<nat, Block>)
    requires |a| == |b| && forall i | 0 <= i < |a| :: a[i].mask == b[i].mask && a[i].adr == b[i].adr
    ensures Used(a) == Used(b) && CountUsed(a) == CountUsed(b) && Contents(a, m) == Contents(b, m)
  {
    CountMasks(a, b);
    forall x: nat ensures x in Used(a) <==> x in Used(b) {}
    assert Used(a) == Used(b);
    forall x | x in Used(a) ensures Adr(a, x) == Adr(b, x) {}
  }

  lemma MidUnlink(a: seq<Arena>, b: seq<Arena>, m: map<nat, Block>, brk: nat, head: nat, mixed: seq<nat>, k: nat, free: seq<nat>, r: nat)
    requires ArenasOk(a, brk) && ListsMid(a, brk, mixed, free, {r})
    requires IsChain(a, head, mixed) && k < |mixed| && mixed[k] == r
    requires Unlinked(a, b, mixed, k) && a[r].Full()
    ensures ArenasOk(b, brk) && ListsMid(b, brk, Without(mixed, k), free, {})
    ensures Contents(b, m) == Contents(a, m) && CountUsed(b) == CountUsed(a)
  {
    WithoutMembers(mixed, k);
    SameContents(a, b, m);
    assert 0 in a[r].mask;
    if k > 0 { assert mixed[k - 1] in mixed; }
    assert mixed[k] in mixed;
    forall i | brk <= i < |b| ensures b[i] == Arena(0, 0, {}) {}
  }

  lemma MidRetire(a: seq<Arena>, c: seq<Arena>, b: seq<Arena>, brk: nat, head: nat, mixed: seq<nat>, k: nat,
                  free: seq<nat>, l: nat, r: nat)
    requires ArenasOk(a, brk) && ListsMid(a, brk, mixed, free, {l, r}) && RangesDisjoint(a) && l != r
    requires IsChain(a, head, mixed) && k < |mixed| && mixed[k] == l
    requires Unlinked(a, c, mixed, k) && a[l].mask == {}
    requires |b| == |c| && b == c[l := b[l]] && b[l].adr == 0 && b[l].mask == {}
    ensures ArenasOk(b, brk) && ListsMid(b, brk, Without(mixed, k), [l] + free, {r}) && RangesDisjoint(b)
    ensures OnlyArena(a, b, l) && OnlyArena(a, c, l)
    ensures forall i :: i in Without(mixed, k) <==> i in mixed && i != l
  {
    WithoutMembers(mixed, k);
    if k > 0 { assert mixed[k - 1] in mixed; }
    assert mixed[k] in mixed;
    RetireLists(a, b, brk, mixed, Without(mixed, k), free, l, r);
  }

  lemma RetireLists(a: seq<Arena>, b: seq<Arena>, brk: nat, mixed: seq<nat>, rest: seq<nat>, free: seq<nat>, l: nat, r: nat)
    requires ArenasOk(a, brk) && ListsMid(a, brk, mixed, free, {l, r}) && RangesDisjoint(a) && l != r && l < |a|
    requires forall i :: i in rest <==> i in mixed && i != l
    requires OnlyArena(a, b, l) && b[l].adr == 0 && b[l].mask == {}
    requires forall i: nat | i < |a| && i !in mixed :: b[i].next == a[i].next
    ensures ArenasOk(b, brk) && ListsMid(b, brk, rest, [l] + free, {r}) && RangesDisjoint(b)
  {
    assert forall i :: i in [l] + free <==> i == l || i in free;
    forall i | brk <= i < |b| ensures b[i] == Arena(0, 0, {}) {}
  }

  lemma RetireData(a: seq<Arena>, c: seq<Arena>, m: map<nat, Block>, b: seq<Arena>, n: map<nat, Block>, brk: nat, l: nat)
    requires OnlyArena(a, b, l) && OnlyArena(a, c, l) && l < |a| && a[l].mask == b[l].mask == {}
    requires ArenasOk(b, brk) && forall j | 0 <= j < |b| :: b[j].Live() || b[j].Empty()
    requires forall i, p | 0 <= i < |c| && i != l && Within(c[i], p) :: Peek(n, p) == Peek(m, p)
    ensures Contents(b, n) == Contents(a, m) && CountUsed(b) == CountUsed(a)
  {
    CountMasks(a, b);
    forall x: nat ensures x in Used(a) <==> x in Used(b) {}
    assert Used(a) == Used(b);
    PeekFrame(a, c, m, b, n, l);
  }

  /** An arena that is mixed is where it belongs. */
  lemma Settle(a: seq<Arena>, brk: nat, mixed: seq<nat>, free: seq<nat>, i: nat, pending: set<nat>)
    requires ListsMid(a, brk, mixed, free, pending) && i < |a| && i in pending && a[i].Mixed()
    ensures ListsMid(a, brk, mixed, free, pending - {i})
  {
  }

  lemma LiveOrEmpty(a: seq<Arena>, brk: nat, mixed: seq<nat>, free: seq<nat>, pending: set<nat>)
    requires ListsMid(a, brk, mixed, free, pending)
    ensures forall j | 0 <= j < |a| :: a[j].Live() || a[j].Empty()
  {
  }

  /** All mixed arenas but at most one have only blocks whose move was refused. */
  ghost predicate Compacted(a: seq<Arena>, mixed: seq<nat>, log: seq<Call>) {
    forall i, j | i in mixed && j in mixed && i != j :: Stuck(a, i, log) || Stuck(a, j, log)
  }

  lemma AtMostOne(a: seq<Arena>, mixed: seq<nat>, ms: seq<nat>, lh: int, rh: int, log: seq<Call>)
    requires Treating(a, mixed, ms, lh, rh, log) && rh <= lh
    ensures Compacted(a, mixed, log)
  {
    hide Stuck, Froms, Tos, At;
    forall i, j | i in mixed && j in mixed && i != j ensures Stuck(a, i, log) || Stuck(a, j, log) {
      if At(ms, lh, rh, i) && At(ms, lh, rh, j) { OnePlace(ms, lh, rh, i, j); }
    }
  }

  /** If nothing was refused at most one arena is mixed. */
  lemma AllAccepted(a: seq<Arena>, mixed: seq<nat>, log: seq<Call>)
    requires Compacted(a, mixed, log) && Distinct(mixed) && forall k | 0 <= k < |log| :: log[k].moved
    requires forall i | i in mixed :: i < |a| && a[i].mask != {}
    ensures |mixed| <= 1
  {
    if |mixed| > 1 {
      assert mixed[0] in mixed && mixed[1] in mixed;
      NotStuck(a, mixed[0], log);
      NotStuck(a, mixed[1], log);
    }
  }

  lemma NotStuck(a: seq<Arena>, i: nat, log: seq<Call>)
    requires i < |a| && a[i].mask != {} && forall k | 0 <= k < |log| :: log[k].moved
    ensures !Stuck(a, i, log)
  {
    var b :| b in a[i].mask;
    assert !Refused(log, ARENA_BLOCKS * i + b);
  }

  lemma NowStuck(a: seq<Arena>, i: nat, log: seq<Call>)
    requires i < |a| && forall b | b in a[i].mask :: Refused(log, ARENA_BLOCKS * i + b)
    ensures Stuck(a, i, log)
  {
  }

  lemma OnePlace(ms: seq<nat>, lh: int, rh: int, x: nat, y: nat)
    requires rh <= lh && At(ms, lh, rh, x) && At(ms, lh, rh, y)
    ensures x == y
  {
  }

  /** Arenas l and r may change their masks, nothing else. */
  ghost predicate OnlyMasks(a: seq<Arena>, b: seq<Arena>, l: nat, r: nat) {
    && |b| == |a|
    && (forall i | 0 <= i < |a| :: b[i].adr == a[i].adr && b[i].next == a[i].next)
    && (forall i | 0 <= i < |a| && i != l && i != r :: b[i].mask == a[i].mask)
  }

  /** The lists as they should be, except that pending arenas are still on the mixed list whatever their mask. */
  ghost predicate ListsMid(a: seq<Arena>, brk: nat, mixed: seq<nat>, free: seq<nat>, pending: set<nat>) {
    && (forall i: nat | i < |a| && i !in pending :: a[i].Live() <==> !a[i].Empty())
    && (forall i: nat | i < |a| && i !in pending :: i in mixed <==> a[i].Mixed())
    && (forall i: nat | i < |a| && i in pending :: a[i].Live() && i in mixed)
    && (forall i: nat | i < |a| :: i in free <==> i < brk && !a[i].Live())
    && (forall i: nat | i < |a| && i !in mixed && i !in free :: a[i].next == 0)
  }

  const INVALID_BLOCK: nat := 0xFFFF_FFFF

  ghost predicate Within(x: Arena, p: nat) {
    x.Live() && x.adr <= p < x.adr + ARENA_SIZE
  }

  /** The used blocks of b have the bytes they had. */
  ghost predicate KeepsBytes(a: seq<Arena>, m: map<nat, Block>, b: seq<Arena>, n: map<nat, Block>) {
    forall x | x in Used(b) :: x / ARENA_BLOCKS < |a| && Peek(n, Adr(b, x)) == Peek(m, Adr(a, x))
  }

  lemma SameMemory(a: seq<Arena>, b: seq<Arena>, m: map<nat, Block>, p: nat, id: nat)
    requires OneMore(b, a, p, id) && |a| == |b|
    ensures KeepsBytes(a, m, b, m)
  {
  }

  /** The block id is used, and lies at address p. */
  ghost predicate UsedAt(a: seq<Arena>, id: nat, p: nat) {
    id in Used(a) && p == Adr(a, id)
  }

  function Inserted(s: seq<nat>, k: nat, i: nat): seq<nat>
    requires k <= |s|
  {
    s[..k] + [i] + s[k..]
  }

  lemma SortInsert(a: seq<Arena>, s: seq<nat>, k: nat, i: nat, x: Arena)
    requires SortOk(a, s) && k <= |s| && i < |a| && !a[i].Live()
    requires FreshRange(a, x.adr)
    requires k > 0 ==> a[s[k - 1]].adr < x.adr
    requires k < |s| ==> a[s[k]].adr >= x.adr
    ensures SortOk(a[i := x], Inserted(s, k, i))
  {
    var b, t := a[i := x], Inserted(s, k, i);
    assert b[i] == x;
    forall l | 0 <= l < |t| ensures t[l] < |a| && b[t[l]].Live()
      && b[t[l]].adr == if l == k then x.adr else a[s[if l < k then l else l - 1]].adr
    {
      InsertedAt(s, k, i, l);
    }
    forall l, m | 0 <= l < m < |t| ensures b[t[l]].adr < b[t[m]].adr {
      InsertedOrder(a, s, k, x, l, m);
    }
    InsertedMembers(s, k, i);
  }

  lemma InsertedAt(s: seq<nat>, k: nat, i: nat, l: nat)
    requires k <= |s| && l <= |s|
    ensures |Inserted(s, k, i)| == |s| + 1
    ensures Inserted(s, k, i)[l] == if l == k then i else s[if l < k then l else l - 1]
  {
  }

  lemma InsertedOrder(a: seq<Arena>, s: seq<nat>, k: nat, x: Arena, l: nat, m: nat)
    requires SortOk(a, s) && k <= |s| && l < m <= |s|
    requires FreshRange(a, x.adr)
    requires k > 0 ==> a[s[k - 1]].adr < x.adr
    requires k < |s| ==> a[s[k]].adr >= x.adr
    ensures (if l == k then x.adr else a[s[if l < k then l else l - 1]].adr) <
            (if m == k then x.adr else a[s[if m < k then m else m - 1]].adr)
  {
    if m == k {
      if l < k - 1 { assert a[s[l]].adr < a[s[k - 1]].adr; }
    } else if l == k {
      assert a[s[k]].Live();
      if k < m - 1 { assert a[s[k]].adr < a[s[m - 1]].adr; }
    }
  }

  /** The next question is a proper one. */
  lemma Asked(a: seq<Arena>, m: map<nat, Block>, l: nat, r: nat, lb: nat, rb: nat, log: seq<Call>, d: map<nat, Block>)
    requires l < |a| && r < |a| && lb in a[l].mask && lb < ARENA_BLOCKS && rb < ARENA_BLOCKS && rb !in a[r].mask
    requires Contents(a, m) == DataAfter(d, log)
    requires forall id | id in Tos(log) :: id / ARENA_BLOCKS != l
    requires forall id | id in Froms(log) :: id / ARENA_BLOCKS != r
    ensures ARENA_BLOCKS * l + lb in DataAfter(d, log) && ARENA_BLOCKS * r + rb !in DataAfter(d, log)
    ensures ARENA_BLOCKS * l + lb in Contents(a, m)
    ensures ARENA_BLOCKS * l + lb !in Tos(log) && ARENA_BLOCKS * r + rb !in Froms(log)
  {
    hide DataAfter, Tos, Froms;
    IdParts(l, lb);
    IdParts(r, rb);
  }

  /** Switching the two mask bits. */
  lemma MoveUsed(a: seq<Arena>, b: seq<Arena>, l: nat, r: nat, lb: nat, rb: nat)
    requires l < |a| && r < |a| && l != r && IsMask(a[l].mask, ARENA_BLOCKS)
    requires lb in a[l].mask && rb < ARENA_BLOCKS && rb !in a[r].mask
    requires OnlyMasks(a, b, l, r) && b[l].mask == a[l].mask - {lb} && b[r].mask == a[r].mask + {rb}
    ensures ARENA_BLOCKS * l + lb in Used(a) && ARENA_BLOCKS * r + rb !in Used(a)
    ensures Used(b) == Used(a) - {ARENA_BLOCKS * l + lb} + {ARENA_BLOCKS * r + rb}
    ensures CountUsed(b) == CountUsed(a)
  {
    var c := a[l := a[l].(mask := a[l].mask - {lb})];
    ClearBlock(a, c, l, lb);
    SetBlock(c, b, r, rb);
    IdParts(r, rb);
    hide Adr;
  }

  /** Copying a block and switching the two mask bits moves the block in the contents, and nothing else. */
  lemma MoveData(a: seq<Arena>, m: map<nat, Block>, b: seq<Arena>, n: map<nat, Block>, l: nat, r: nat, lb: nat, rb: nat)
    requires |a| == |b| && RangesDisjoint(b) && l < |a| && r < |a| && l != r && b[r].Live()
    requires forall i | 0 <= i < |b| :: IsMask(a[i].mask, ARENA_BLOCKS) && (b[i].Live() || b[i].Empty())
    requires lb in a[l].mask && rb < ARENA_BLOCKS && rb !in a[r].mask
    requires OnlyMasks(a, b, l, r) && b[l].mask == a[l].mask - {lb} && b[r].mask == a[r].mask + {rb}
    requires n == m[a[r].adr + rb * BLOCK_SIZE := Peek(m, a[l].adr + lb * BLOCK_SIZE)]
    ensures Contents(b, n) == Move(Contents(a, m), ARENA_BLOCKS * l + lb, ARENA_BLOCKS * r + rb)
    ensures CountUsed(b) == CountUsed(a)
  {
    hide Move, CountUsed, RangesDisjoint, Contents;
    var from, to := ARENA_BLOCKS * l + lb, ARENA_BLOCKS * r + rb;
    MoveUsed(a, b, l, r, lb, rb);
    IdParts(l, lb);
    IdParts(r, rb);
    forall id | id in Used(b) ensures Peek(n, Adr(b, id)) == Peek(m, Adr(a, if id == to then from else id)) {
      if id != to { NotTo(a, b, id, to); }
    }
    ContentsMoved(a, m, b, n, from, to);
  }

  lemma ContentsMoved(a: seq<Arena>, m: map<nat, Block>, b: seq<Arena>, n: map<nat, Block>, from: nat, to: nat)
    requires from in Used(a) && to !in Used(a) && Used(b) == Used(a) - {from} + {to}
    requires forall id | id in Used(b) :: (id == to || id / ARENA_BLOCKS < |a|)
               && Peek(n, Adr(b, id)) == Peek(m, Adr(a, if id == to then from else id))
    ensures Contents(b, n) == Move(Contents(a, m), from, to)
  {
    hide Peek, Adr;
    var p, q := Contents(a, m), Contents(b, n);
    assert p.Keys == Used(a) && q.Keys == Used(b);
    MoveMaps(p, q, from, to);
  }

  lemma MoveMaps(p: map<nat, Block>, q: map<nat, Block>, from: nat, to: nat)
    requires from in p && to !in p && q.Keys == p.Keys - {from} + {to}
    requires q[to] == p[from] && forall id | id in q && id != to :: q[id] == p[id]
    ensures q == Move(p, from, to)
  {
  }

  lemma NotTo(a: seq<Arena>, b: seq<Arena>, id: nat, to: nat)
    requires |a| == |b| && RangesDisjoint(b) && forall i | 0 <= i < |a| :: b[i].adr == a[i].adr
    requires forall i | 0 <= i < |b| :: b[i].Live() || b[i].Empty()
    requires id in Used(b) && id != to && to / ARENA_BLOCKS < |b| && b[to / ARENA_BLOCKS].Live()
    ensures id / ARENA_BLOCKS < |a| && Adr(b, id) == Adr(a, id) && Adr(b, id) != Adr(b, to)
  {
    AdrInjective(b, id, to);
  }

  /** Masks matter neither for the lists nor for the addresses. */
  lemma MaskFrame(a: seq<Arena>, b: seq<Arena>, l: nat, r: nat, brk: nat, sortAdr: seq<nat>,
                  mixedList: nat, mixed: seq<nat>, freeList: nat, free: seq<nat>)
    requires OnlyMasks(a, b, l, r) && RangesDisjoint(a) && SortOk(a, sortAdr)
    requires l < |a| && r < |a| && IsMask(b[l].mask, ARENA_BLOCKS) && IsMask(b[r].mask, ARENA_BLOCKS)
    requires ArenasOk(a, brk) && ListsMid(a, brk, mixed, free, {l, r})
    ensures ArenasOk(b, brk) && ListsMid(b, brk, mixed, free, {l, r})
    ensures forall i | 0 <= i < |b| :: b[i].Live() || b[i].Empty()
    requires IsChain(a, mixedList, mixed) && IsChain(a, freeList, free)
    ensures RangesDisjoint(b) && SortOk(b, sortAdr)
    ensures IsChain(b, mixedList, mixed) && IsChain(b, freeList, free)
  {
  }

  /** The arenas in the order of their number of used blocks. */
  ghost predicate CountSorted(a: seq<Arena>, s: seq<nat>) {
    && (forall k | 0 <= k < |s| :: s[k] < |a|)
    && (forall k, l | 0 <= k < l < |s| :: |a[s[k]].mask| <= |a[s[l]].mask|)
  }

  lemma CountInsert(a: seq<Arena>, s: seq<nat>, k: nat, i: nat)
    requires k <= |s| && i < |a| && i !in s && Distinct(s) && CountSorted(a, s)
    requires k > 0 ==> |a[s[k - 1]].mask| <= |a[i].mask|
    requires k < |s| ==> |a[i].mask| <= |a[s[k]].mask|
    ensures Distinct(Inserted(s, k, i)) && CountSorted(a, Inserted(s, k, i)) && |Inserted(s, k, i)| == |s| + 1
  {
    hide Inserted;
    var t := Inserted(s, k, i);
    InsertedAt(s, k, i, k);
    forall l: nat | l <= |s| ensures t[l] == if l == k then i else s[if l < k then l else l - 1] { InsertedAt(s, k, i, l); }
    forall l: nat | l <= |s| ensures t[l] < |a| && (l < k ==> |a[t[l]].mask| <= |a[i].mask|) && (l > k ==> |a[i].mask| <= |a[t[l]].mask|) {
      if l < k - 1 { assert |a[s[l]].mask| <= |a[s[k - 1]].mask|; }
      if l > k + 1 { assert |a[s[k]].mask| <= |a[s[l - 1]].mask|; }
    }
  }

  lemma ListStart(a: seq<Arena>, head: nat, s: seq<nat>)
    requires IsChain(a, head, s)
    ensures head == Link(s, 0) && Distinct([]) && CountSorted(a, [])
  {
  }

  /** The member of a list at position k, and the link to the next. */
  lemma ListAt(a: seq<Arena>, head: nat, s: seq<nat>, k: nat)
    requires IsChain(a, head, s) && k < |s|
    ensures s[k] < |a| && a[s[k]].next == Link(s, k + 1) && s[k] !in s[..k]
    ensures s[..k + 1] == s[..k] + [s[k]]
  {
  }

  lemma InsertedMembers(s: seq<nat>, k: nat, i: nat)
    requires k <= |s|
    ensures forall j :: j in Inserted(s, k, i) <==> j == i || j in s
  {
    var t := Inserted(s, k, i);
    assert t[k] == i;
    forall j | j in s ensures j in t {
      var l :| 0 <= l < |s| && s[l] == j;
      assert t[if l < k then l else l + 1] == j;
    }
  }

  /** Where a binary search for the address of a live arena ends. */
  lemma PlaceInIndex(a: seq<Arena>, s: seq<nat>, i: nat, k: nat)
    requires SortOk(a, s) && i < |a| && a[i].Live() && k <= |s|
    requires forall l | 0 <= l < k :: a[s[l]].adr < a[i].adr
    requires forall l | k <= l < |s| :: a[i].adr <= a[s[l]].adr
    ensures k < |s| && s[k] == i
  {
    var l :| 0 <= l < |s| && s[l] == i;
    assert a[s[l]].adr == a[i].adr;
    if k < |s| { NotBehind(a, s, k, l); }
  }

  lemma NotBehind(a: seq<Arena>, s: seq<nat>, k: nat, l: nat)
    requires SortOk(a, s) && k < |s| && l < |s| && a[s[l]].adr <= a[s[k]].adr
    ensures l <= k
  {
  }

  /** The memory of the other arenas is not that of arena i. */
  lemma OtherBytes(a: seq<Arena>, i: nat)
    requires RangesDisjoint(a) && i < |a| && a[i].Live()
    ensures forall j, p | 0 <= j < |a| && j != i && Within(a[j], p) :: !Within(a[i], p)
  {
  }

  lemma SortRemove(a: seq<Arena>, s: seq<nat>, k: nat)
    requires SortOk(a, s) && k < |s|
    ensures SortOk(a[s[k] := a[s[k]].(adr := 0)], Without(s, k))
  {
    var t := Without(s, k);
    var b := a[s[k] := a[s[k]].(adr := 0)];
    WithoutLength(s, k);
    forall l | 0 <= l < |t| ensures t[l] < |b| && b[t[l]] == a[t[l]] && a[t[l]].Live() {
      SortRemoveAt(a, s, k, l);
    }
    forall l, m | 0 <= l < m < |t| ensures b[t[l]].adr < b[t[m]].adr {
      SortRemoveAt(a, s, k, l);
      SortRemoveAt(a, s, k, m);
      SortedAt(a, s, Skip(k, l), Skip(k, m));
    }
    hide Without;
    forall j: nat | j < |b| && b[j].Live() ensures j in t {
      StaysIndexed(a, s, k, j);
    }
  }

  lemma SortedAt(a: seq<Arena>, s: seq<nat>, m: nat, n: nat)
    requires SortOk(a, s) && m < n < |s|
    ensures a[s[m]].adr < a[s[n]].adr
  {
  }

  /** The entry at place l after entry k was erased. */
  lemma SortRemoveAt(a: seq<Arena>, s: seq<nat>, k: nat, l: nat)
    requires SortOk(a, s) && k < |s| && l < |s| - 1
    ensures var t := Without(s, k);
      |t| == |s| - 1 && t[l] == s[Skip(k, l)] && t[l] < |a| && t[l] != s[k] && a[t[l]].Live()
  {
    WithoutAt(s, k, l);
    SortedAt(a, s, if Skip(k, l) < k then Skip(k, l) else k, if Skip(k, l) < k then k else Skip(k, l));
  }

  /** Every other live arena is still there. */
  lemma StaysIndexed(a: seq<Arena>, s: seq<nat>, k: nat, j: nat)
    requires SortOk(a, s) && k < |s| && j < |a| && a[j].Live() && j != s[k]
    ensures j in Without(s, k)
  {
    var n :| 0 <= n < |s| && s[n] == j;
    WithoutAt(s, k, if n < k then n else n - 1);
  }

  /** The block of arena i at address p is the used block x with that address. */
  lemma BlockOfAdr(a: seq<Arena>, i: nat, p: nat, x: nat)
    requires RangesDisjoint(a) && LiveIsUsed(a) && forall k | 0 <= k < |a| :: IsMask(a[k].mask, ARENA_BLOCKS)
    requires i < |a| && Within(a[i], p)
    requires x in Used(a) && Adr(a, x) == p
    ensures i == x / ARENA_BLOCKS && (p - a[i].adr) / BLOCK_SIZE == x % ARENA_BLOCKS
    ensures x == ARENA_BLOCKS * i + (p - a[i].adr) / BLOCK_SIZE
  {
    var k := x / ARENA_BLOCKS;
    assert Within(a[k], p);
    assert i == k;
  }

  lemma LastBlock(a: seq<Arena>, brk: nat, mixed: seq<nat>, free: seq<nat>, i: nat, j: nat)
    requires LiveIsUsed(a) && ListsOk(a, brk, mixed, free) && ArenasOk(a, brk)
    requires i < |a| && a[i].mask - {j} == {} && j in a[i].mask
    ensures a[i].Live() && i in mixed && i !in free && j < ARENA_BLOCKS
    ensures forall k | k in mixed && k < |a| :: k !in free
  {
    MaskCard(a[i].mask, ARENA_BLOCKS);
    assert a[i].mask == {j};
  }

  lemma AfterUnlink(a: seq<Arena>, c: seq<Arena>, mixed: seq<nat>, k: nat, freeList: nat, free: seq<nat>)
    requires Distinct(mixed) && k < |mixed| && (forall j | 0 <= j < |mixed| :: mixed[j] < |a|) && Unlinked(a, c, mixed, k)
    requires IsChain(a, freeList, free) && forall x | x in mixed && x < |a| :: x !in free
    ensures IsChain(c, freeList, free)
    ensures mixed[k] !in Without(mixed, k)
    ensures forall x :: x in Without(mixed, k) <==> x in mixed && x != mixed[k]
  {
    WithoutMembers(mixed, k);
    if k > 0 { assert mixed[k - 1] in mixed; }
    assert mixed[k] in mixed;
  }

  /** What release_without_count leaves when it empties arena i; c is the state after the unlinking. */
  lemma LastReleased(a: seq<Arena>, c: seq<Arena>, m: map<nat, Block>, b: seq<Arena>, n: map<nat, Block>,
                     brk: nat, mixed: seq<nat>, k: nat, free: seq<nat>, i: nat, j: nat)
    requires ArenasOk(a, brk) && LiveIsUsed(a) && RangesDisjoint(a) && ListsOk(a, brk, mixed, free)
    requires i < |a| && j in a[i].mask && a[i].mask - {j} == {}
    requires Distinct(mixed) && k < |mixed| && (forall l | 0 <= l < |mixed| :: mixed[l] < |a|) && mixed[k] == i
    requires Unlinked(a[i := a[i].(mask := a[i].mask - {j})], c, mixed, k)
    requires |b| == |c| && b == c[i := b[i]] && b[i].adr == 0 && b[i].mask == {}
    requires forall l, p | 0 <= l < |c| && l != i && Within(c[l], p) :: Peek(n, p) == Peek(m, p)
    ensures ArenasOk(b, brk) && LiveIsUsed(b) && RangesDisjoint(b)
    ensures ListsOk(b, brk, Without(mixed, k), [i] + free)
    ensures OneMore(b, a, a[i].adr + j * BLOCK_SIZE, ARENA_BLOCKS * i + j)
    ensures KeepsBytes(a, m, b, n)
  {
    WithoutMembers(mixed, k);
    if k > 0 { assert mixed[k - 1] in mixed; }
    CloseArena(a, b, brk, mixed, Without(mixed, k), free, i);
    ClearBlock(a, b, i, j);
    PeekFrame(a, c, m, b, n, i);
  }

  lemma AllFull(a: seq<Arena>, brk: nat, mixed: seq<nat>, free: seq<nat>)
    requires ArenasOk(a, brk) && LiveIsUsed(a) && ListsOk(a, brk, mixed, free) && mixed == [] && free == []
    ensures forall i | 0 <= i < brk :: a[i].Full()
  {
    forall i: nat | i < brk ensures a[i].Full() {
      assert i !in mixed && i !in free;
    }
  }

  lemma ChainPop(a: seq<Arena>, head: nat, s: seq<nat>)
    requires IsChain(a, head, s) && s != []
    ensures a[s[0]].next == Link(s, 1) && s[0] !in s[1..]
    ensures IsChain(a, a[s[0]].next, s[1..])
  {
  }

  /** Links and masks do not matter for where memory is. */
  lemma LinkFrame(a: seq<Arena>, b: seq<Arena>)
    requires |a| == |b| && forall i | 0 <= i < |a| :: a[i].adr == b[i].adr
    requires RangesDisjoint(a)
    ensures RangesDisjoint(b)
    ensures forall mmap | FreshRange(a, mmap) :: FreshRange(b, mmap)
  {
  }

  lemma OneMoreCount(a: seq<Arena>, b: seq<Arena>, p: nat, id: nat)
    requires OneMore(a, b, p, id)
    ensures CountUsed(b) == CountUsed(a) + 1
  {
  }

  /** One block fewer, and nothing else moved or changed. */
  lemma DataMinus(a: seq<Arena>, m: map<nat, Block>, b: seq<Arena>, n: map<nat, Block>, p: nat, id: nat)
    requires OneMore(b, a, p, id)
    requires KeepsBytes(a, m, b, n)
    ensures Contents(b, n) == Contents(a, m) - {id}
  {
  }

  /** Unmapping arena i leaves the bytes of the used blocks elsewhere alone. */
  lemma PeekFrame(a: seq<Arena>, c: seq<Arena>, m: map<nat, Block>, b: seq<Arena>, n: map<nat, Block>, i: nat)
    requires |a| == |b| == |c| && i < |a| && b[i].mask == {}
    requires forall j | 0 <= j < |a| && j != i :: b[j].adr == c[j].adr == a[j].adr && b[j].mask == a[j].mask
    requires forall j | 0 <= j < |b| :: IsMask(b[j].mask, ARENA_BLOCKS) && (b[j].Live() || b[j].Empty())
    requires forall l, p | 0 <= l < |c| && l != i && Within(c[l], p) :: Peek(n, p) == Peek(m, p)
    ensures forall x | x in Used(b) :: Peek(n, Adr(b, x)) == Peek(m, Adr(a, x))
  {
    forall x | x in Used(b) ensures Peek(n, Adr(b, x)) == Peek(m, Adr(a, x)) {
      var j := x / ARENA_BLOCKS;
      assert j != i && b[j].Live();
      assert Within(c[j], Adr(b, x));
    }
  }

  lemma OneMoreFrame(a: seq<Arena>, b: seq<Arena>, c: seq<Arena>, p: nat, id: nat)
    requires |a| == |b| && forall i | 0 <= i < |a| :: a[i].mask == b[i].mask && a[i].adr == b[i].adr
    requires OneMore(b, c, p, id)
    ensures OneMore(a, c, p, id)
  {
    CountMasks(a, b);
    forall x: nat ensures x in Used(a) <==> x in Used(b) {}
    assert Used(a) == Used(b);
    forall x | x in Used(a) ensures Adr(c, x) == Adr(a, x) {}
  }

  lemma {:induction false} CountEmpty(a: seq<Arena>)
    requires forall i | 0 <= i < |a| :: a[i].Empty()
    ensures CountUsed(a) == 0
  {
    if a != [] { CountEmpty(a[..|a| - 1]); }
  }
}
