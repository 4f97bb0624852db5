/** The intrusive lists of pool blocks (block_list.cpp). The links live in the block heads. */
module BlockLists {
  import opened Sequences

  /** prevBlock and nextBlock of a block head; zero is null. */
  datatype Links = Links(prev: nat, next: nat)

  /** The other fields of block_head: realBlock and fixedBlock are those of the first page of the block;
      pageLockThread is kept for each of the eight pages, as the set of thread slots. */
  datatype BlockHead = BlockHead(realBlock: nat, fixedBlock: bool, pageLockThread: seq<set<nat>>)

  /** The block heads in memory, by pool block id (page_bpool::first_block_head); the zero block has no links. */
  class HeadMemory {
    var links: map<nat, Links>
    var heads: map<nat, BlockHead>

    constructor ()
      ensures links == map[] && heads == map[]
    {
      links, heads := map[], map[];
    }
  }

  function Prev(s: seq<nat>, k: nat): nat {
    if 0 < k <= |s| then s[k - 1] else 0
  }

  function Next(s: seq<nat>, k: nat): nat {
    if k + 1 < |s| then s[k + 1] else 0
  }

  /** head, tail and the links in the block heads spell exactly the sequence s. */
  ghost predicate IsList(h: map<nat, Links>, head: nat, tail: nat, s: seq<nat>) {
    && Distinct(s) && 0 !in h
    && (forall k {:trigger s[k] in h} | 0 <= k < |s| :: s[k] in h)
    && head == (if s == [] then 0 else s[0])
    && tail == (if s == [] then 0 else s[|s| - 1])
    && (forall k {:trigger h[s[k]]} | 0 <= k < |s| :: h[s[k]] == Links(Prev(s, k), Next(s, k)))
  }

  /** Only the links of the blocks in s changed. */
  ghost predicate OnlyLinks(h: map<nat, Links>, g: map<nat, Links>, s: set<nat>) {
    && g.Keys == h.Keys
    && (forall id | id in h && id !in s :: g[id] == h[id])
  }

  lemma InsertHead(h: map<nat, Links>, g: map<nat, Links>, head: nat, tail: nat, s: seq<nat>, id: nat)
    requires IsList(h, head, tail, s) && id != 0 && id in h && id !in s && h[id].prev == 0
    requires g.Keys == h.Keys && (forall x | x in h && x != id && x != head :: g[x] == h[x])
    requires g[id] == Links(0, head)
    requires head != 0 ==> g[head] == Links(id, h[head].next)
    ensures IsList(g, id, if s == [] then id else tail, [id] + s)
    ensures OnlyLinks(h, g, {id} + Elems(s))
  {
    var t := [id] + s;
    forall k | 0 <= k < |t| ensures g[t[k]] == Links(Prev(t, k), Next(t, k)) {
      if k > 0 { assert t[k] == s[k - 1] && h[s[k - 1]] == Links(Prev(s, k - 1), Next(s, k - 1)); }
    }
    assert s == [] || s[0] in s;
  }

  /** Unlinking position k: its neighbours are joined, its own links are null. */
  lemma Unlink(h: map<nat, Links>, g: map<nat, Links>, head: nat, tail: nat, s: seq<nat>, k: nat)
    requires IsList(h, head, tail, s) && k < |s|
    requires g.Keys == h.Keys && (forall x | x in h && x != s[k] && x != Prev(s, k) && x != Next(s, k) :: g[x] == h[x])
    requires g[s[k]] == Links(0, 0)
    requires Prev(s, k) != 0 ==> g[Prev(s, k)] == Links(h[Prev(s, k)].prev, Next(s, k))
    requires Next(s, k) != 0 ==> g[Next(s, k)] == Links(Prev(s, k), h[Next(s, k)].next)
    ensures IsList(g, if k == 0 then Next(s, 0) else head, if k == |s| - 1 then Prev(s, k) else tail, Without(s, k))
    ensures s[k] !in Without(s, k) && OnlyLinks(h, g, Elems(s))
  {
    hide Prev, Next;
    var t := Without(s, k);
    NeighboursIn(s, k);
    WithoutEnds(s, k);
    assert Distinct(t) && s[k] !in t by { WithoutMembers(s, k); }
    forall j | 0 <= j < |t| ensures t[j] in g && g[t[j]] == Links(Prev(t, j), Next(t, j)) {
      WithoutAt(s, k, j);
      WithoutLinks(s, k, j);
      UnlinkAt(h, g, head, tail, s, k, Skip(k, j));
    }
    hide Without, Distinct;
  }

  /** The ends of a list without one member. */
  lemma WithoutEnds(s: seq<nat>, k: nat)
    requires k < |s|
    ensures var t := Without(s, k);
      && |t| == |s| - 1
      && (if t == [] then 0 else t[0]) == (if k == 0 then Next(s, 0) else s[0])
      && (if t == [] then 0 else t[|t| - 1]) == (if k == |s| - 1 then Prev(s, k) else s[|s| - 1])
  {
  }

  lemma WithoutLinks(s: seq<nat>, k: nat, j: nat)
    requires k < |s| && j < |s| - 1
    ensures Prev(Without(s, k), j) == if Skip(k, j) == k + 1 then Prev(s, k) else Prev(s, Skip(k, j))
    ensures Next(Without(s, k), j) == if Skip(k, j) + 1 == k then Next(s, k) else Next(s, Skip(k, j))
  {
  }

  lemma NeighboursIn(s: seq<nat>, k: nat)
    requires k < |s|
    ensures s[k] in s
    ensures Prev(s, k) != 0 ==> Prev(s, k) in s
    ensures Next(s, k) != 0 ==> Next(s, k) in s
  {
  }

  lemma UnlinkAt(h: map<nat, Links>, g: map<nat, Links>, head: nat, tail: nat, s: seq<nat>, k: nat, i: nat)
    requires IsList(h, head, tail, s) && k < |s| && i < |s| && i != k
    requires g.Keys == h.Keys && (forall x | x in h && x != s[k] && x != Prev(s, k) && x != Next(s, k) :: g[x] == h[x])
    requires Prev(s, k) != 0 ==> Prev(s, k) in h && g[Prev(s, k)] == Links(h[Prev(s, k)].prev, Next(s, k))
    requires Next(s, k) != 0 ==> Next(s, k) in h && g[Next(s, k)] == Links(Prev(s, k), h[Next(s, k)].next)
    ensures s[i] in g
    ensures g[s[i]] == Links(if i == k + 1 then Prev(s, k) else Prev(s, i), if i + 1 == k then Next(s, k) else Next(s, i))
  {
    assert h[s[i]] == Links(Prev(s, i), Next(s, i));
    NotNeighbour(s, k, i);
  }

  lemma NotNeighbour(s: seq<nat>, k: nat, i: nat)
    requires Distinct(s) && k < |s| && i < |s| && forall j | 0 <= j < |s| :: s[j] != 0
    ensures s[i] == Prev(s, k) <==> i + 1 == k
    ensures s[i] == Next(s, k) <==> i == k + 1
  {
  }

  /** What the links of the block at position k say. */
  lemma ListAt(h: map<nat, Links>, head: nat, tail: nat, s: seq<nat>, k: nat)
    requires IsList(h, head, tail, s) && k < |s|
    ensures s[k] in h && h[s[k]] == Links(Prev(s, k), Next(s, k)) && s[k] != 0
    ensures Prev(s, k) == 0 <==> k == 0
    ensures Next(s, k) == 0 <==> k == |s| - 1
    ensures Prev(s, k) != 0 ==> Prev(s, k) in h
    ensures Next(s, k) != 0 ==> Next(s, k) in h
    ensures s[k] != Prev(s, k) && s[k] != Next(s, k) && (Prev(s, k) == Next(s, k) ==> |s| == 1)
    ensures head == s[k] <==> k == 0
  {
    if 0 < k < |s| - 1 { assert s[k - 1] != s[k + 1]; }
    if k > 0 { assert s[0] != s[k]; }
  }

  lemma PromoteHead(h: map<nat, Links>, g: map<nat, Links>, f: map<nat, Links>, head: nat, tail: nat, s: seq<nat>, k: nat)
    requires k < |s| && 0 < k && s[k] in g && g[s[k]] == Links(0, 0) && s[k] != 0
    requires IsList(g, head, tail, Without(s, k)) && s[k] !in Without(s, k) && head != 0 && OnlyLinks(h, g, Elems(s))
    requires head in g && f.Keys == g.Keys && (forall x | x in g && x != s[k] && x != head :: f[x] == g[x])
    requires f[s[k]] == Links(0, head) && f[head] == Links(s[k], g[head].next)
    ensures IsList(f, s[k], tail, [s[k]] + Without(s, k))
    ensures OnlyLinks(h, f, Elems(s))
  {
    InsertHead(g, f, head, tail, Without(s, k), s[k]);
    forall x | x in {s[k]} + Elems(Without(s, k)) ensures x in Elems(s) {}
  }

  /** Cutting before position n gives two lists. */
  lemma Split(h: map<nat, Links>, g: map<nat, Links>, head: nat, tail: nat, s: seq<nat>, n: nat)
    requires IsList(h, head, tail, s) && n < |s|
    requires g.Keys == h.Keys && (forall x | x in h && x != s[n] && x != Prev(s, n) :: g[x] == h[x])
    requires g[s[n]] == Links(0, h[s[n]].next)
    requires Prev(s, n) != 0 ==> g[Prev(s, n)] == Links(h[Prev(s, n)].prev, 0)
    ensures IsList(g, if n == 0 then 0 else head, Prev(s, n), s[..n])
    ensures IsList(g, s[n], tail, s[n..])
    ensures OnlyLinks(h, g, Elems(s))
  {
    hide Prev, Next;
    var u, v := s[..n], s[n..];
    SplitDistinct(s, n);
    assert IsList(g, if n == 0 then 0 else head, Prev(s, n), u) by {
      forall k | 0 <= k < n ensures u[k] in g && g[u[k]] == Links(Prev(u, k), Next(u, k)) {
        SplitAt(h, g, head, tail, s, n, k);
      }
      PrevOf(s, n);
    }
    assert IsList(g, s[n], tail, v) by {
      forall k | 0 <= k < |v| ensures v[k] in g && g[v[k]] == Links(Prev(v, k), Next(v, k)) {
        SplitAt(h, g, head, tail, s, n, n + k);
        assert v[k] == s[n + k];
      }
    }
    hide IsList, Distinct;
    NeighboursIn(s, n);
    PrevOf(s, n);
  }

  lemma PrevOf(s: seq<nat>, n: nat)
    requires n < |s|
    ensures Prev(s, n) == if n == 0 then 0 else s[n - 1]
  {
  }

  lemma SplitAt(h: map<nat, Links>, g: map<nat, Links>, head: nat, tail: nat, s: seq<nat>, n: nat, k: nat)
    requires IsList(h, head, tail, s) && n < |s| && k < |s|
    requires g.Keys == h.Keys && (forall x | x in h && x != s[n] && x != Prev(s, n) :: g[x] == h[x])
    requires g[s[n]] == Links(0, h[s[n]].next)
    requires Prev(s, n) != 0 ==> g[Prev(s, n)] == Links(h[Prev(s, n)].prev, 0)
    ensures s[k] in g
    ensures k < n ==> g[s[k]] == Links(Prev(s[..n], k), Next(s[..n], k))
    ensures k >= n ==> g[s[k]] == Links(Prev(s[n..], k - n), Next(s[n..], k - n))
  {
    ListAt(h, head, tail, s, k);
    NotNeighbour(s, n, k);
    hide IsList, Distinct;
  }

  /** Joining the tail of one list to the head of another gives their concatenation. */
  lemma Join(h: map<nat, Links>, g: map<nat, Links>, head: nat, tail: nat, s: seq<nat>, head': nat, tail': nat, t: seq<nat>)
    requires IsList(h, head, tail, s) && IsList(h, head', tail', t) && s != [] && t != []
    requires forall x | x in s :: x !in t
    requires g.Keys == h.Keys && (forall x | x in h && x != tail && x != head' :: g[x] == h[x])
    requires g[tail] == Links(h[tail].prev, head') && g[head'] == Links(tail, h[head'].next)
    ensures IsList(g, head, tail', s + t)
    ensures OnlyLinks(h, g, Elems(s) + Elems(t))
  {
    var u := s + t;
    forall k | 0 <= k < |u| ensures u[k] in g && g[u[k]] == Links(Prev(u, k), Next(u, k)) {
      JoinAt(h, g, head, tail, s, head', tail', t, k);
    }
    JoinDistinct(s, t);
    assert s[|s| - 1] in s && t[0] in t;
    hide Prev, Next;
  }

  lemma JoinAt(h: map<nat, Links>, g: map<nat, Links>, head: nat, tail: nat, s: seq<nat>, head': nat, tail': nat, t: seq<nat>, k: nat)
    requires IsList(h, head, tail, s) && IsList(h, head', tail', t) && s != [] && t != []
    requires forall x | x in s :: x !in t
    requires g.Keys == h.Keys && (forall x | x in h && x != tail && x != head' :: g[x] == h[x])
    requires g[tail] == Links(h[tail].prev, head') && g[head'] == Links(tail, h[head'].next)
    requires k < |s| + |t|
    ensures (s + t)[k] in g && g[(s + t)[k]] == Links(Prev(s + t, k), Next(s + t, k))
  {
    if k < |s| {
      assert h[s[k]] == Links(Prev(s, k), Next(s, k));
      assert s[k] in s && t[0] in t;
    } else {
      assert h[t[k - |s|]] == Links(Prev(t, k - |s|), Next(t, k - |s|));
      assert t[k - |s|] in t && s[|s| - 1] in s;
    }
  }

  /** The other lists do not notice what an operation does to the links of its own blocks. */
  lemma ListOther(h: map<nat, Links>, g: map<nat, Links>, head: nat, tail: nat, s: seq<nat>, own: set<nat>)
    requires IsList(h, head, tail, s) && OnlyLinks(h, g, own) && forall x | x in s :: x !in own
    ensures IsList(g, head, tail, s)
  {
    assert forall x | x in s :: x in h;
  }

  lemma NothingCut(h: map<nat, Links>, head: nat, tail: nat, s: seq<nat>, t: seq<nat>)
    requires IsList(h, head, tail, s)
    ensures (head == 0 <==> s == []) && OnlyLinks(h, h, Elems(s) + Elems(t))
    ensures s == s[..|s|] && t == t + s[|s|..]
  {
  }

  lemma NotIn(s: seq<nat>, t: seq<nat>)
    requires forall x | x in t :: x !in s
    ensures forall x | x in s :: x !in Elems(t)
  {
  }

  /** The two parts of a list have no block in common. */
  lemma CutApart(h: map<nat, Links>, head: nat, tail: nat, s: seq<nat>, n: nat)
    requires IsList(h, head, tail, s) && n < |s|
    ensures forall x | x in s[n..] :: x in s && x !in s[..n]
    ensures forall x | x in s[..n] :: x in s && x !in s[n..] && x !in Elems(s[n..])
  {
    assert s == s[..n] + s[n..];
    PartsDistinct(s[..n], s[n..]);
  }

  lemma AttachFrame(h: map<nat, Links>, g: map<nat, Links>, f: map<nat, Links>, s: seq<nat>, n: nat, t: seq<nat>)
    requires n <= |s| && OnlyLinks(h, g, Elems(s)) && OnlyLinks(g, f, Elems(t) + Elems(s[n..]))
    requires forall x | x in s :: x !in t
    ensures OnlyLinks(h, f, Elems(s) + Elems(t))
    ensures forall x | x in s[..n] && x !in s[n..] :: x !in Elems(t) + Elems(s[n..])
  {
  }

  lemma ListId(h: map<nat, Links>, head: nat, tail: nat, s: seq<nat>, id: nat)
    requires IsList(h, head, tail, s) && id in s
    ensures id in h && id != 0
  {
  }

  lemma MinusKnown(h: map<nat, Links>, head: nat, tail: nat, s: seq<nat>, k: nat)
    requires IsList(h, head, tail, s) && k < |s|
    ensures Minus(s, s[k]) == Without(s, k) && s[k] !in Without(s, k)
    ensures forall x | x in Without(s, k) :: x in s
  {
    MinusAt(s, k);
    WithoutMembers(s, k);
  }

  lemma OnlyKeys(h: map<nat, Links>, g: map<nat, Links>, s: set<nat>)
    requires OnlyLinks(h, g, s)
    ensures g.Keys == h.Keys
  {
  }

  lemma OnlyJoin(h: map<nat, Links>, g: map<nat, Links>, f: map<nat, Links>, s: set<nat>, t: set<nat>, u: set<nat>)
    requires OnlyLinks(h, g, s) && OnlyLinks(g, f, t) && s <= u && t <= u
    ensures OnlyLinks(h, f, u)
  {
  }

  class BlockList {
    const p: HeadMemory
    var head: nat
    var tail: nat
    ghost var elems: seq<nat>

    ghost predicate Valid()
      reads this, p`links
    {
      IsList(p.links, head, tail, elems)
    }

    constructor (p: HeadMemory)
      requires 0 !in p.links
      ensures this.p == p && elems == [] && Valid()
    {
      this.p := p;
      head, tail, elems := 0, 0, [];
    }

    predicate Empty()
      reads this
    {
      head == 0
    }

    method Clear()
      requires 0 !in p.links
      modifies this
      ensures Valid() && elems == []
    {
      head, tail, elems := 0, 0, [];
    }

    method Length() returns (n: nat)
      requires Valid()
      ensures n == |elems|
    {
      n := 0;
      var b := head;
      while b != 0
        invariant n <= |elems| && b == (if n < |elems| then elems[n] else 0)
        decreases |elems| - n
      {
        n := n + 1;
        b := p.links[b].next;
      }
    }

    method FindBlock(id: nat) returns (found: bool)
      requires Valid()
      ensures found <==> id in elems
    {
      ghost var n := 0;
      var b := head;
      while b != 0
        invariant n <= |elems| && b == (if n < |elems| then elems[n] else 0)
        invariant id !in elems[..n]
        decreases |elems| - n
      {
        if b == id {
          return true;
        }
        n := n + 1;
        b := p.links[b].next;
      }
      return false;
    }

    /** Pushes a block that is on no list at the head. */
    method Insert(id: nat)
      requires Valid() && id != 0 && id in p.links && id !in elems
      requires p.links[id].prev == 0 && p.links[id].next == 0
      modifies this, p`links
      ensures Valid() && elems == [id] + old(elems)
      ensures OnlyLinks(old(p.links), p.links, {id} + Elems(old(elems)))
    {
      if head != 0 {
        p.links := p.links[head := p.links[head].(prev := id)];
        p.links := p.links[id := p.links[id].(next := head)];
      } else {
        tail := id;
      }
      head := id;
      InsertHead(old(p.links), p.links, old(head), old(tail), elems, id);
      elems := [id] + elems;
    }

    /** Takes one block out and nulls its links. */
    method Remove(id: nat) returns (ok: bool, ghost k: nat)
      requires Valid() && (elems == [] || id in elems)
      modifies this, p`links
      ensures ok <==> old(elems) != []
      ensures ok ==> k < |old(elems)| && old(elems)[k] == id && elems == Without(old(elems), k)
      ensures !ok ==> elems == [] && p.links == old(p.links)
      ensures Valid() && OnlyLinks(old(p.links), p.links, Elems(old(elems)))
      ensures ok ==> p.links[id].prev == 0 && p.links[id].next == 0
    {
      k := 0;
      if head == 0 {
        return false, 0;
      }
      k :| 0 <= k < |elems| && elems[k] == id;
      var item := p.links[id];
      ListAt(p.links, head, tail, elems, k);
      hide IsList, OnlyLinks, Without, Prev, Next, Elems;
      if head == id {
        head := item.next;
        if head != 0 {
          p.links := p.links[head := p.links[head].(prev := 0)];
        } else {
          tail := 0;
        }
        p.links := p.links[id := p.links[id].(next := 0)];
      } else {
        JoinNeighbours(k, id);
        p.links := p.links[id := Links(0, 0)];
      }
      Unlink(old(p.links), p.links, old(head), old(tail), elems, k);
      elems := Without(elems, k);
      ok := true;
    }

    /** Removes a block here and inserts it there. */
    method MoveTo(to: BlockList, id: nat)
      requires Valid() && to != this && to.p == p && to.Valid()
      requires id in elems && forall x | x in elems :: x !in to.elems
      modifies this, to, p`links
      ensures Valid() && elems == Minus(old(elems), id)
      ensures to.Valid() && to.elems == [id] + old(to.elems)
      ensures OnlyLinks(old(p.links), p.links, Elems(old(elems)) + Elems(old(to.elems)))
    {
      ListId(p.links, head, tail, elems, id);
      hide IsList, OnlyLinks, Without, Minus;
      var ok, k := Remove(id);
      ListOther(old(p.links), p.links, to.head, to.tail, to.elems, Elems(old(elems)));
      MinusKnown(old(p.links), old(head), old(tail), old(elems), k);
      OnlyKeys(old(p.links), p.links, Elems(old(elems)));
      ghost var g := p.links;
      to.Insert(id);
      ListOther(g, p.links, head, tail, elems, {id} + Elems(old(to.elems)));
      OnlyJoin(old(p.links), g, p.links, Elems(old(elems)), {id} + Elems(old(to.elems)), Elems(old(elems)) + Elems(old(to.elems)));
    }

    /** Moves a block of the list to its head. */
    method Promote(id: nat) returns (moved: bool, ghost k: nat)
      requires Valid() && id in elems
      modifies this, p`links
      ensures k < |old(elems)| && old(elems)[k] == id && elems == [id] + Without(old(elems), k)
      ensures moved <==> k != 0
      ensures Valid() && OnlyLinks(old(p.links), p.links, Elems(old(elems)))
    {
      k :| 0 <= k < |elems| && elems[k] == id;
      if head == id {
        assert k == 0 && elems == [id] + Without(elems, k);
        return false, k;
      }
      ListAt(p.links, head, tail, elems, k);
      PromoteLinks(k, id);
      head := id;
      elems := [id] + Without(elems, k);
      return true, k;
    }

    /** The link updates of promote, for a block that is not the first. */
    method PromoteLinks(ghost k: nat, id: nat)
      requires Valid() && 0 < k < |elems| && elems[k] == id
      modifies `tail, p`links
      ensures IsList(p.links, id, tail, [id] + Without(elems, k))
      ensures OnlyLinks(old(p.links), p.links, Elems(elems))
    {
      ListAt(p.links, head, tail, elems, k);
      ListAt(p.links, head, tail, elems, 0);
      hide IsList, OnlyLinks, Without, Elems;
      JoinNeighbours(k, id);
      ghost var g := p.links[id := Links(0, 0)];
      Unlink(old(p.links), g, head, old(tail), elems, k);
      LinkHead(id);
      PromoteHead(old(p.links), g, p.links, head, tail, elems, k);
    }

    /** Joins the neighbours of a block that is not the first. */
    method JoinNeighbours(ghost k: nat, id: nat)
      requires Valid() && 0 < k < |elems| && elems[k] == id
      modifies `tail, p`links
      ensures p.links.Keys == old(p.links).Keys
      ensures forall x | x in p.links && x != Prev(elems, k) && x != Next(elems, k) :: p.links[x] == old(p.links)[x]
      ensures Prev(elems, k) in p.links && p.links[Prev(elems, k)] == Links(old(p.links)[Prev(elems, k)].prev, Next(elems, k))
      ensures Next(elems, k) != 0 ==> Next(elems, k) in p.links
      ensures Next(elems, k) != 0 ==> p.links[Next(elems, k)] == Links(Prev(elems, k), old(p.links)[Next(elems, k)].next)
      ensures tail == if k == |elems| - 1 then Prev(elems, k) else old(tail)
    {
      ListAt(p.links, head, tail, elems, k);
      hide IsList, Prev, Next;
      var item := p.links[id];
      p.links := p.links[item.prev := p.links[item.prev].(next := item.next)];
      if item.next != 0 {
        p.links := p.links[item.next := p.links[item.next].(prev := item.prev)];
      } else {
        tail := item.prev;
      }
    }

    /** Links a detached block before the head. */
    method LinkHead(id: nat)
      requires head in p.links && id in p.links && id != head
      modifies p`links
      ensures p.links.Keys == old(p.links).Keys
      ensures forall x | x in p.links && x != id && x != head :: p.links[x] == old(p.links)[x]
      ensures p.links[id] == Links(0, head) && p.links[head] == Links(id, old(p.links)[head].next)
    {
      p.links := p.links[head := p.links[head].(prev := id)];
      p.links := p.links[id := p.links[id].(prev := 0, next := head)];
    }

    /** Takes the first block off and nulls its links. */
    method PopHead() returns (id: nat)
      requires Valid() && elems != []
      modifies this, p`links
      ensures id == old(elems)[0] && elems == old(elems)[1..]
      ensures Valid() && OnlyLinks(old(p.links), p.links, Elems(old(elems)))
      ensures p.links[id].prev == 0 && p.links[id].next == 0
    {
      id := head;
      var next := p.links[id].next;
      if next != 0 {
        p.links := p.links[next := p.links[next].(prev := 0)];
        head := next;
        p.links := p.links[id := p.links[id].(next := 0)];
      } else {
        head, tail := 0, 0;
      }
      elems := elems[1..];
    }

    /** Splits off the last block_count blocks (all of them if there are fewer) and puts them at the end of dest. */
    method Truncate(dest: BlockList, blockCount: nat) returns (count: nat)
      requires Valid() && dest != this && dest.p == p && dest.Valid() && forall x | x in elems :: x !in dest.elems
      modifies this, dest, p`links
      ensures count == if blockCount < |old(elems)| then blockCount else |old(elems)|
      ensures elems == old(elems)[..|old(elems)| - count]
      ensures dest.elems == old(dest.elems) + old(elems)[|old(elems)| - count..]
      ensures Valid() && dest.Valid() && OnlyLinks(old(p.links), p.links, Elems(old(elems)) + Elems(old(dest.elems)))
    {
      hide IsList, OnlyLinks, Elems, Distinct;
      ghost var h, s := p.links, elems;
      NothingCut(h, head, tail, s, dest.elems);
      if blockCount == 0 || head == 0 {
        return 0;
      }
      var pTail := tail;
      var pHead;
      ghost var n;
      count, pHead, n := FindCut(blockCount);
      CutBefore(pHead, n);
      NotIn(dest.elems, s);
      ListOther(h, p.links, dest.head, dest.tail, dest.elems, Elems(s));
      CutApart(h, old(head), old(tail), s, n);
      elems := s[..n];
      ghost var g := p.links;
      dest.Attach(pHead, pTail, s[n..]);
      AttachFrame(h, g, p.links, s, n, old(dest.elems));
      ListOther(g, p.links, head, tail, elems, Elems(old(dest.elems)) + Elems(s[n..]));
    }

    /** Puts a chain of blocks at the end of this list. */
    method Attach(pHead: nat, pTail: nat, ghost s: seq<nat>)
      requires Valid() && s != [] && IsList(p.links, pHead, pTail, s) && forall x | x in elems :: x !in s
      modifies this, p`links
      ensures Valid() && elems == old(elems) + s
      ensures OnlyLinks(old(p.links), p.links, Elems(old(elems)) + Elems(s))
    {
      if head == 0 {
        head, tail := pHead, pTail;
      } else {
        assert tail in elems && pHead in s;
        p.links := p.links[tail := p.links[tail].(next := pHead)];
        p.links := p.links[pHead := p.links[pHead].(prev := tail)];
        Join(old(p.links), p.links, head, tail, elems, pHead, pTail, s);
        tail := pTail;
      }
      elems := elems + s;
    }

    /** Ends this list before the block at position n, which becomes the head of a list of its own. */
    method CutBefore(pHead: nat, ghost n: nat)
      requires Valid() && n < |elems| && pHead == elems[n]
      modifies `head, `tail, p`links
      ensures IsList(p.links, head, tail, elems[..n]) && IsList(p.links, pHead, old(tail), elems[n..])
      ensures OnlyLinks(old(p.links), p.links, Elems(elems))
    {
      ListAt(p.links, head, tail, elems, n);
      hide IsList, OnlyLinks, Elems;
      var prev := p.links[pHead].prev;
      if prev != 0 {
        p.links := p.links[prev := p.links[prev].(next := 0)];
        tail := prev;
      } else {
        head, tail := 0, 0;
      }
      p.links := p.links[pHead := p.links[pHead].(prev := 0)];
      Split(old(p.links), p.links, old(head), old(tail), elems, n);
    }

    /** Walks back from the tail to the first of the last blockCount blocks. */
    method FindCut(blockCount: nat) returns (count: nat, pHead: nat, ghost n: nat)
      requires Valid() && blockCount > 0 && elems != []
      ensures n < |elems| && pHead == elems[n] && n + count == |elems|
      ensures count == if blockCount < |elems| then blockCount else |elems|
    {
      count := 1;
      pHead := tail;
      n := |elems| - 1;
      while count < blockCount && p.links[pHead].prev != 0
        invariant 0 <= n < |elems| && n + count == |elems| && count <= blockCount
        invariant pHead == elems[n]
        decreases n
      {
        pHead := p.links[pHead].prev;
        count := count + 1;
        n := n - 1;
      }
    }

    /** Appends the blocks of src, which becomes empty. */
    method Append(src: BlockList) returns (ok: bool)
      requires Valid() && src != this && src.p == p && src.Valid()
      requires forall x | x in elems :: x !in src.elems
      modifies this, src, p`links
      ensures ok <==> old(src.elems) != []
      ensures elems == old(elems) + old(src.elems) && src.elems == []
      ensures Valid() && src.Valid()
      ensures OnlyLinks(old(p.links), p.links, Elems(old(elems)) + Elems(old(src.elems)))
    {
      if src.head == 0 {
        return false;
      }
      if head == 0 {
        head, tail := src.head, src.tail;
      } else {
        assert tail in elems && src.head in src.elems;
        p.links := p.links[tail := p.links[tail].(next := src.head)];
        p.links := p.links[src.head := p.links[src.head].(prev := tail)];
        Join(old(p.links), p.links, head, tail, elems, src.head, src.tail, src.elems);
        tail := src.tail;
      }
      elems := elems + src.elems;
      src.head, src.tail, src.elems := 0, 0, [];
      ok := true;
    }
  }
}
