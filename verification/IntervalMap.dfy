/** A map from keys to values that stores only where the value changes (interval_map.h). */
module IntervalMaps {
  datatype Entry<V> = Entry(key: int, value: V)

  /** std::map: the keys ascend. Next to each other there are always different values. */
  ghost predicate Canonical<V>(m: seq<Entry<V>>) {
    && m != []
    && (forall i, j | 0 <= i < j < |m| :: m[i].key < m[j].key)
    && (forall i, j | 0 <= i < j < |m| && j == i + 1 :: m[i].value != m[j].value)
  }

  /** The value of the last entry at or before k. */
  ghost function LookUp<V>(m: seq<Entry<V>>, k: int): V
    requires m != [] && m[0].key <= k
  {
    if m[|m| - 1].key <= k then m[|m| - 1].value else LookUp(m[..|m| - 1], k)
  }

  lemma {:induction false} LookAt<V>(m: seq<Entry<V>>, k: int, i: nat)
    requires i < |m| && m[0].key <= k && m[i].key <= k && forall j | i < j < |m| :: k < m[j].key
    ensures LookUp(m, k) == m[i].value
  {
    if i < |m| - 1 { LookAt(m[..|m| - 1], k, i); }
  }

  /** An assignment of a value to the keys from first up to (not including) last. */
  datatype Assignment<V> = Assignment(first: int, last: int, value: V)

  /** The last assignment that covers a key decides its value. */
  ghost function Meaning<V>(initial: V, history: seq<Assignment<V>>, k: int): V {
    if history == [] then initial
    else
      var a := history[|history| - 1];
      if a.first <= k < a.last then a.value else Meaning(initial, history[..|history| - 1], k)
  }

  // ---- the result of an assignment ----

  /** The entries before b, the new value unless it goes on from there, the value from e on unless it is the same,
      and the entries after e. p entries lie before b, and q at or before e. */
  function Assigned<V(==)>(m: seq<Entry<V>>, p: nat, q: nat, b: int, e: int, value: V): seq<Entry<V>>
    requires p <= q <= |m| && q > 0
  {
    m[..p] + Start(m, p, b, value) + End(m, q, e, value) + m[q..]
  }

  function Start<V(==)>(m: seq<Entry<V>>, p: nat, b: int, value: V): seq<Entry<V>>
    requires p <= |m|
  {
    if p > 0 && m[p - 1].value == value then [] else [Entry(b, value)]
  }

  function End<V(==)>(m: seq<Entry<V>>, q: nat, e: int, value: V): seq<Entry<V>>
    requires 0 < q <= |m|
  {
    if m[q - 1].value == value then [] else [Entry(e, m[q - 1].value)]
  }

  ghost predicate Bounds<V>(m: seq<Entry<V>>, p: nat, q: nat, b: int, e: int) {
    && p <= q <= |m| && q > 0 && b < e
    && (forall i | 0 <= i < p :: m[i].key < b) && (forall i | p <= i < |m| :: b <= m[i].key)
    && (forall i | 0 <= i < q :: m[i].key <= e) && (forall i | q <= i < |m| :: e < m[i].key)
  }

  /** Which entries an assignment leaves, place by place. */
  lemma AssignedAt<V>(m: seq<Entry<V>>, p: nat, q: nat, b: int, e: int, value: V, s: nat, t: nat)
    requires p <= q <= |m| && q > 0 && s == |Start(m, p, b, value)| && t == |End(m, q, e, value)|
    ensures var r := Assigned(m, p, q, b, e, value);
      && |r| == p + s + t + |m| - q && s <= 1 && t <= 1
      && (s == 0 <==> p > 0 && m[p - 1].value == value) && (t == 0 <==> m[q - 1].value == value)
      && (forall i {:trigger r[i]} | 0 <= i < |r| :: r[i] ==
            if i < p then m[i] else if i < p + s then Entry(b, value) else if i < p + s + t then Entry(e, m[q - 1].value)
            else m[q + i - p - s - t])
  {
  }

  lemma AssignedCanonical<V>(m: seq<Entry<V>>, p: nat, q: nat, b: int, e: int, value: V)
    requires Canonical(m) && m[0].key <= b && Bounds(m, p, q, b, e)
    ensures Canonical(Assigned(m, p, q, b, e, value)) && Assigned(m, p, q, b, e, value)[0].key == m[0].key
  {
    var s, t := |Start(m, p, b, value)|, |End(m, q, e, value)|;
    AssignedAt(m, p, q, b, e, value, s, t);
    hide Assigned, Start, End;
    var r := Assigned(m, p, q, b, e, value);
    if p == 0 { assert m[0].key == b; }
    assert m[q - 1].key <= e;
    forall i, j | 0 <= i < j < |r| ensures r[i].key < r[j].key && (j == i + 1 ==> r[i].value != r[j].value) {
      hide Canonical;
      AssignedOrder(m, p, q, b, e, value, s, t, r, i, j);
    }
  }

  lemma AssignedOrder<V>(m: seq<Entry<V>>, p: nat, q: nat, b: int, e: int, value: V, s: nat, t: nat, r: seq<Entry<V>>, i: nat, j: nat)
    requires Canonical(m) && Bounds(m, p, q, b, e) && s <= 1 && t <= 1 && |r| == p + s + t + |m| - q && i < j < |r|
    requires (s == 0 <==> p > 0 && m[p - 1].value == value) && (t == 0 <==> m[q - 1].value == value)
    requires forall i {:trigger r[i]} | 0 <= i < |r| :: r[i] ==
               if i < p then m[i] else if i < p + s then Entry(b, value) else if i < p + s + t then Entry(e, m[q - 1].value)
               else m[q + i - p - s - t]
    ensures r[i].key < r[j].key && (j == i + 1 ==> r[i].value != r[j].value)
  {
    var x, y := r[i], r[j];
    if j == i + 1 && i >= p && j >= p + s + t && i < p + s + t { assert m[q - 1].value != m[q].value; }
    if j == i + 1 && i < p && j >= p + s + t { assert y == m[q] && m[q - 1].value != m[q].value; }
  }

  lemma AssignedMeans<V>(m: seq<Entry<V>>, p: nat, q: nat, b: int, e: int, value: V, k: int)
    requires Canonical(m) && m[0].key <= b && Bounds(m, p, q, b, e) && m[0].key <= k
    ensures Canonical(Assigned(m, p, q, b, e, value)) && Assigned(m, p, q, b, e, value)[0].key == m[0].key
    ensures LookUp(Assigned(m, p, q, b, e, value), k) == if b <= k < e then value else LookUp(m, k)
  {
    AssignedCanonical(m, p, q, b, e, value);
    var s, t := |Start(m, p, b, value)|, |End(m, q, e, value)|;
    AssignedAt(m, p, q, b, e, value, s, t);
    hide Assigned, Start, End, LookUp;
    var r := Assigned(m, p, q, b, e, value);
    var c := Cover(m, k);
    LookAt(m, k, c);
    var d := if k < b then c else if k < e then p + s - 1 else if c < q then p + s + t - 1 else c - q + p + s + t;
    Placed(m, p, q, b, e, s, t, r, value, k, c, d);
    LookAt(r, k, d);
  }

  /** The entry of the new map that decides k. */
  lemma Placed<V>(m: seq<Entry<V>>, p: nat, q: nat, b: int, e: int, s: nat, t: nat, r: seq<Entry<V>>, value: V, k: int, c: nat, d: int)
    requires Canonical(m) && Bounds(m, p, q, b, e) && s <= 1 && t <= 1 && |r| == p + s + t + |m| - q
    requires (s == 0 <==> p > 0 && m[p - 1].value == value) && (t == 0 <==> m[q - 1].value == value)
    requires forall i {:trigger r[i]} | 0 <= i < |r| :: r[i] ==
               if i < p then m[i] else if i < p + s then Entry(b, value) else if i < p + s + t then Entry(e, m[q - 1].value)
               else m[q + i - p - s - t]
    requires Canonical(r) && c < |m| && m[c].key <= k && forall j | c < j < |m| :: k < m[j].key
    requires d == if k < b then c else if k < e then p + s - 1 else if c < q then p + s + t - 1 else c - q + p + s + t
    ensures 0 <= d < |r| && r[d].key <= k && (forall j | d < j < |r| :: k < r[j].key)
    ensures r[d].value == if b <= k < e then value else m[c].value
  {
    if k >= e && c < q { assert c == q - 1; }
    if d + 1 < |r| {
      var y := r[d + 1];
      assert k < y.key;
      assert forall j | d + 1 < j < |r| :: y.key < r[j].key;
    }
  }

  /** The entry that decides a key. */
  lemma {:induction false} Cover<V>(m: seq<Entry<V>>, k: int) returns (i: nat)
    requires m != [] && m[0].key <= k && forall i, j | 0 <= i < j < |m| :: m[i].key < m[j].key
    ensures i < |m| && m[i].key <= k && forall j | i < j < |m| :: k < m[j].key
  {
    if m[|m| - 1].key <= k {
      i := |m| - 1;
    } else {
      i := Cover(m[..|m| - 1], k);
    }
  }

  /** The representation is unique: two canonical maps that start at the same key and agree everywhere are the same. */
  lemma {:induction false} Unique<V>(m: seq<Entry<V>>, r: seq<Entry<V>>, n: nat)
    requires Canonical(m) && Canonical(r) && m[0].key == r[0].key && n <= |m|
    requires forall k | m[0].key <= k :: LookUp(m, k) == LookUp(r, k)
    ensures n <= |r| && m[..n] == r[..n]
  {
    if n == 1 {
      LookFirst(m);
      LookFirst(r);
      assert LookUp(m, m[0].key) == LookUp(r, m[0].key);
    } else if n > 1 {
      Unique(m, r, n - 1);
      var i := n - 1;
      assert m[..i][i - 1] == r[..i][i - 1];
      if i < |r| && r[i].key < m[i].key {
        Differs(r, m, i);
      } else {
        Differs(m, r, i);
      }
    }
  }

  lemma LookFirst<V>(m: seq<Entry<V>>)
    requires Canonical(m)
    ensures LookUp(m, m[0].key) == m[0].value
  {
    LookAt(m, m[0].key, 0);
  }

  /** The first different entry: if m has it earlier, or r has none, the values differ there. */
  lemma Differs<V>(m: seq<Entry<V>>, r: seq<Entry<V>>, i: nat)
    requires Canonical(m) && Canonical(r) && m[0].key == r[0].key && 0 < i < |m| && i <= |r| && m[i - 1] == r[i - 1]
    requires i < |r| ==> m[i].key <= r[i].key
    requires LookUp(m, m[i].key) == LookUp(r, m[i].key)
    ensures i < |r| && m[i] == r[i]
  {
    var k := m[i].key;
    LookAt(m, k, i);
    assert m[i].value != m[i - 1].value;
    if i < |r| && r[i].key == k { LookAt(r, k, i); } else { LookAt(r, k, i - 1); }
  }

  lemma SameMap<V>(m: seq<Entry<V>>, r: seq<Entry<V>>)
    requires Canonical(m) && Canonical(r) && m[0].key == r[0].key
    requires forall k | m[0].key <= k :: LookUp(m, k) == LookUp(r, k)
    ensures m == r
  {
    Unique(m, r, |m|);
    Unique(r, m, |r|);
    assert m[..|m|] == m && r[..|r|] == r;
  }

  class IntervalMap<V(==)> {
    var m: seq<Entry<V>>
    ghost const initial: V
    ghost var history: seq<Assignment<V>>

    ghost predicate Valid()
      reads this
    {
      Canonical(m) && forall k | m[0].key <= k :: LookUp(m, k) == Meaning(initial, history, k)
    }

    constructor (least: int, value: V)
      ensures Valid() && m[0].key == least && initial == value && history == []
    {
      m := [Entry(least, value)];
      initial := value;
      history := [];
    }

    /** std::map::upper_bound: how many entries lie at or before k. */
    method UpperBound(k: int) returns (n: nat)
      requires Canonical(m)
      ensures n <= |m| && (forall i | 0 <= i < n :: m[i].key <= k) && (forall i | n <= i < |m| :: k < m[i].key)
    {
      n := 0;
      while n < |m| && m[n].key <= k
        invariant n <= |m| && forall i | 0 <= i < n :: m[i].key <= k
      {
        n := n + 1;
      }
    }

    /** operator[]. */
    method Get(k: int) returns (value: V)
      requires Valid() && m[0].key <= k
      ensures value == LookUp(m, k) == Meaning(initial, history, k)
    {
      var n := UpperBound(k);
      LookAt(m, k, n - 1);
      value := m[n - 1].value;
    }

    /** Assigns a value to the keys from b up to (not including) e. */
    method Assign(b: int, e: int, value: V)
      requires Valid() && (b < e ==> m[0].key <= b)
      modifies this
      ensures Valid() && m[0].key == old(m[0].key) && history == old(history) + [Assignment(b, e, value)]
      ensures forall k | m[0].key <= k :: LookUp(m, k) == if b <= k < e then value else old(LookUp(m, k))
    {
      history := history + [Assignment(b, e, value)];
      assert history[..|history| - 1] == old(history);
      if !(b < e) {
        return;
      }
      ghost var p, q := AssignEntries(b, e, value);
      AssignedCanonical(old(m), p, q, b, e, value);
      forall k | m[0].key <= k ensures LookUp(m, k) == if b <= k < e then value else old(LookUp(m, k)) {
        AssignedMeans(old(m), p, q, b, e, value, k);
      }
    }

    method AssignEntries(b: int, e: int, value: V) returns (ghost p: nat, ghost q: nat)
      requires Canonical(m) && b < e && m[0].key <= b
      modifies `m
      ensures Bounds(old(m), p, q, b, e) && m == Assigned(old(m), p, q, b, e, value)
    {
      var b1 := UpperBound(b);
      var b2 := UpperBound(e);
      var l, r := b1 - 1, b2 - 1;
      p, q := if m[l].key < b then b1 else l, b2;
      if !(m[l].key < b) {
        if l != 0 {
          if m[l - 1].value == value {
            l := l - 1;
            b1 := b1 - 1;
          }
        }
      }
      if l == r {
        AssignWithin(b, e, value, l, p, q);
      } else {
        AssignAcross(b, e, value, b1, b2, l, r, p);
      }
    }

    /** The interval ends before the next entry. */
    method AssignWithin(b: int, e: int, value: V, l: nat, ghost p: nat, ghost q: nat)
      requires p <= q == l + 1 <= |m|
      requires if m[l].key < b then p == l + 1 else p == l && m[l].key == b && (l > 0 ==> m[l - 1].value != value)
      modifies `m
      ensures m == Assigned(old(m), p, q, b, e, value)
    {
      ghost var x := m[..l] + [m[l]] + m[l + 1..];
      assert m == x && m[..l + 1] == m[..l] + [m[l]];
      if m[l].value == value {
        return;
      }
      if m[l].key < b {
        m := m[..l + 1] + [Entry(b, value), Entry(e, m[l].value)] + m[l + 1..];
      } else {
        m := m[..l + 1] + [Entry(e, m[l].value)] + m[l + 1..];
        m := m[l := Entry(m[l].key, value)];
      }
    }

    /** The interval ends behind other entries than it starts in. */
    method AssignAcross(b: int, e: int, value: V, b1: nat, b2: nat, l: nat, r: nat, ghost p: nat)
      requires p <= b2 <= |m| && b1 == l + 1 && b2 == r + 1 && l < r < |m| && m[r].key <= e
      requires if m[l].key < b then p == l + 1 else p == l && m[l].key == b && (l > 0 ==> m[l - 1].value != value)
      modifies `m
      ensures m == Assigned(old(m), p, b2, b, e, value)
    {
      ghost var n := m;
      LastPart(n, b1, b2, r, e, value);
      if m[r].value == value {
        m := m[..b1] + m[b2..];
      } else if m[r].key < e {
        m := m[..b1] + [Entry(e, m[r].value)] + m[b2..];
      } else {
        m := m[..b1] + m[r..];
      }
      ghost var rest := End(n, b2, e, value) + n[b2..];
      FirstPart(n, m, l, b, value, p, rest);
      Regroup(n[..p], Start(n, p, b, value), End(n, b2, e, value), n[b2..]);
      if m[l].value == value {
        return;
      }
      if m[l].key < b {
        m := m[..l + 1] + [Entry(b, value)] + m[l + 1..];
      } else {
        m := m[l := Entry(m[l].key, value)];
      }
    }
  }

  lemma Regroup<V>(a: seq<Entry<V>>, b: seq<Entry<V>>, c: seq<Entry<V>>, d: seq<Entry<V>>)
    ensures a + b + (c + d) == a + b + c + d
  {
  }

  /** The three ways to mend the entries around e. */
  lemma LastPart<V>(n: seq<Entry<V>>, b1: nat, b2: nat, r: nat, e: int, value: V)
    requires b1 <= r < |n| && b2 == r + 1 && n[r].key <= e
    ensures n[..b1] + (End(n, b2, e, value) + n[b2..]) ==
      if n[r].value == value then n[..b1] + n[b2..]
      else if n[r].key < e then n[..b1] + [Entry(e, n[r].value)] + n[b2..]
      else n[..b1] + n[r..]
  {
    if n[r].value == value {
      assert [] + n[b2..] == n[b2..];
    } else if n[r].key < e {
      Regroup([], n[..b1], [Entry(e, n[r].value)], n[b2..]);
      assert [] + n[..b1] == n[..b1];
    } else {
      assert n[r..] == [n[r]] + n[b2..];
    }
  }

  /** What is still to be done once the entries after place l are right. */
  lemma FirstPart<V>(n: seq<Entry<V>>, m: seq<Entry<V>>, l: nat, b: int, value: V, p: nat, rest: seq<Entry<V>>)
    requires l < |n| && p <= |n| && m == n[..l + 1] + rest
    requires if n[l].key < b then p == l + 1 else p == l && n[l].key == b && (l > 0 ==> n[l - 1].value != value)
    ensures m[l] == n[l]
    ensures n[..p] + Start(n, p, b, value) + rest ==
      if m[l].value == value then m
      else if m[l].key < b then m[..l + 1] + [Entry(b, value)] + m[l + 1..]
      else m[l := Entry(m[l].key, value)]
  {
  }
}
