/** Weighted quick union with path halving (union_find.h). */
module UnionFinds {

  /** Every node but a root lies under a parent that weighs at least twice as much. */
  ghost predicate Weighted(id: seq<nat>, sz: seq<nat>) {
    && |sz| == |id|
    && (forall i {:trigger id[i]} | 0 <= i < |id| :: id[i] < |id|)
    && (forall i {:trigger sz[i]} | 0 <= i < |sz| :: sz[i] <= |id|)
    && (forall i {:trigger id[i]} | 0 <= i < |id| && id[i] != i :: sz[i] >= 1 && sz[id[i]] >= 2 * sz[i])
  }

  ghost function Root(id: seq<nat>, sz: seq<nat>, p: nat): (r: nat)
    requires Weighted(id, sz) && p < |id|
    ensures r < |id| && id[r] == r
    decreases |id| - sz[p]
  {
    if id[p] == p then p else Root(id, sz, id[p])
  }

  /** The number of steps that lead from p to its root. */
  ghost function Depth(id: seq<nat>, sz: seq<nat>, p: nat): nat
    requires Weighted(id, sz) && p < |id|
    decreases |id| - sz[p]
  {
    if id[p] == p then 0 else 1 + Depth(id, sz, id[p])
  }

  function Pow2(n: nat): nat { if n == 0 then 1 else 2 * Pow2(n - 1) }

  /** The component of a root. */
  ghost function Members(id: seq<nat>, sz: seq<nat>, r: nat): set<nat>
    requires Weighted(id, sz)
  {
    set x: nat | x < |id| && Root(id, sz, x) == r
  }

  /** The weight of a root is the number of nodes in its component; a node that was never united has no weight. */
  ghost predicate WeighsMembers(id: seq<nat>, sz: seq<nat>) {
    && Weighted(id, sz)
    && (forall r: nat | r < |id| && id[r] == r :: |Members(id, sz, r)| == if sz[r] == 0 then 1 else sz[r])
  }

  /** The depth is at most the binary logarithm of the number of nodes in the component. */
  lemma DepthLog(id: seq<nat>, sz: seq<nat>, p: nat)
    requires WeighsMembers(id, sz) && p < |id|
    ensures Pow2(Depth(id, sz, p)) <= |Members(id, sz, Root(id, sz, p))|
  {
    DepthWeight(id, sz, p);
    PowPositive(Depth(id, sz, p));
  }

  lemma {:induction false} DepthWeight(id: seq<nat>, sz: seq<nat>, p: nat)
    requires Weighted(id, sz) && p < |id|
    ensures Pow2(Depth(id, sz, p)) * sz[p] <= sz[Root(id, sz, p)]
    ensures sz[p] >= 1 ==> Pow2(Depth(id, sz, p)) <= sz[Root(id, sz, p)]
    ensures sz[p] == 0 ==> Depth(id, sz, p) == 0 && Root(id, sz, p) == p
    decreases |id| - sz[p]
  {
    if id[p] != p {
      DepthWeight(id, sz, id[p]);
      var d := Pow2(Depth(id, sz, id[p]));
      Double(d, sz[p], sz[id[p]]);
    }
    AtLeast(Pow2(Depth(id, sz, p)), sz[p]);
  }

  lemma Double(d: nat, s: nat, t: nat)
    requires t >= 2 * s
    ensures (2 * d) * s <= d * t
  {
    assert (2 * d) * s == d * (2 * s);
    if d > 0 { assert d * (2 * s) <= d * t; }
  }

  lemma AtLeast(d: nat, s: nat)
    ensures s >= 1 ==> d <= d * s
  {
  }

  // ---- the path that find halves ----

  /** x reaches p in t steps. */
  ghost predicate Reaches(id: seq<nat>, sz: seq<nat>, x: nat, p: nat, t: nat)
    requires Weighted(id, sz) && x < |id|
    decreases t
  {
    if t == 0 then x == p else id[x] != x && Reaches(id, sz, id[x], p, t - 1)
  }

  lemma {:induction false} ReachDepth(id: seq<nat>, sz: seq<nat>, x: nat, p: nat, t: nat)
    requires Weighted(id, sz) && x < |id| && Reaches(id, sz, x, p, t)
    ensures p < |id| && Depth(id, sz, x) == t + Depth(id, sz, p) && (t > 0 ==> sz[x] < sz[p])
    decreases t
  {
    if t > 0 { ReachDepth(id, sz, id[x], p, t - 1); }
  }

  /** What lies above p does not notice that p is moved. */
  lemma {:induction false} AboveSame(id: seq<nat>, sz: seq<nat>, p: nat, x: nat)
    requires Weighted(id, sz) && p < |id| && id[p] != p && x < |id| && sz[x] > sz[p] && Weighted(id[p := id[id[p]]], sz)
    ensures Depth(id[p := id[id[p]]], sz, x) == Depth(id, sz, x)
    decreases |id| - sz[x]
  {
    if id[x] != x { AboveSame(id, sz, p, id[x]); }
  }

  /** A node that reached p reaches its grandparent in one step more, after p was moved under it. */
  lemma {:induction false} HalveReach(id: seq<nat>, sz: seq<nat>, x: nat, p: nat, t: nat)
    requires Weighted(id, sz) && p < |id| && id[p] != p && x < |id| && Reaches(id, sz, x, p, t) && Weighted(id[p := id[id[p]]], sz)
    requires id[id[p]] != p
    ensures Reaches(id[p := id[id[p]]], sz, x, id[id[p]], t + 1)
    decreases t
  {
    var g := id[p := id[id[p]]];
    if t > 0 {
      ReachDepth(id, sz, x, p, t);
      HalveReach(id, sz, id[x], p, t - 1);
    } else {
      assert Reaches(g, sz, id[id[p]], id[id[p]], 0);
    }
  }

  /** One turn of find: t steps so far, and twice as many have been saved. */
  ghost predicate Halving(id: seq<nat>, sz: seq<nat>, x: nat, p: nat, t: nat, d: nat)
    requires Weighted(id, sz) && x < |id| && p < |id|
  {
    && Reaches(id, sz, x, p, t)
    && 2 * t + Depth(id, sz, p) <= d + if id[p] == p then 1 else 0
  }

  lemma WeightedFacts(id: seq<nat>, sz: seq<nat>)
    requires Weighted(id, sz)
    ensures |sz| == |id| && forall k | 0 <= k < |id| :: id[k] < |id| && sz[k] <= |id|
  {
  }

  lemma RootOf(id: seq<nat>, sz: seq<nat>, p: nat)
    requires Weighted(id, sz) && p < |id| && id[p] == p
    ensures Root(id, sz, p) == p
  {
  }

  lemma RootUp(id: seq<nat>, sz: seq<nat>, p: nat)
    requires Weighted(id, sz) && p < |id| && id[p] != p
    ensures id[p] < |id| && id[id[p]] < |id| && Root(id, sz, id[id[p]]) == Root(id, sz, p)
  {
  }

  lemma HalvingStart(id: seq<nat>, sz: seq<nat>, x: nat)
    requires Weighted(id, sz) && x < |id|
    ensures Halving(id, sz, x, x, 0, Depth(id, sz, x))
  {
  }

  lemma HalvingDone(id: seq<nat>, sz: seq<nat>, x: nat, p: nat, t: nat, d: nat)
    requires Weighted(id, sz) && x < |id| && p < |id| && id[p] == p && Halving(id, sz, x, p, t, d)
    ensures 2 * Depth(id, sz, x) <= d + 1
  {
    ReachDepth(id, sz, x, p, t);
  }

  lemma HalvingNext(id: seq<nat>, sz: seq<nat>, x: nat, p: nat, t: nat, d: nat)
    requires Weighted(id, sz) && x < |id| && p < |id| && id[p] != p && Halving(id, sz, x, p, t, d)
    ensures Weighted(id[p := id[id[p]]], sz) && Halving(id[p := id[id[p]]], sz, x, id[id[p]], t + 1, d)
  {
    Halve(id, sz, p, p);
    HalveReach(id, sz, x, p, t);
    assert sz[id[id[p]]] >= sz[id[p]] > sz[p];
    AboveSame(id, sz, p, id[id[p]]);
    assert Depth(id, sz, p) == 1 + Depth(id, sz, id[p]);
  }

  // ---- counting ----

  ghost function SumRoots(id: seq<nat>, sz: seq<nat>, n: nat): nat
    requires n <= |id| == |sz|
  {
    if n == 0 then 0 else SumRoots(id, sz, n - 1) + if id[n - 1] == n - 1 then sz[n - 1] else 0
  }

  ghost function CountRoots(id: seq<nat>, n: nat): nat
    requires n <= |id|
  {
    if n == 0 then 0 else CountRoots(id, n - 1) + if id[n - 1] == n - 1 then 1 else 0
  }

  ghost function CountAdded(sz: seq<nat>): nat {
    if sz == [] then 0 else CountAdded(sz[..|sz| - 1]) + if sz[|sz| - 1] > 0 then 1 else 0
  }

  lemma {:induction false} AddedBound(sz: seq<nat>)
    ensures CountAdded(sz) <= |sz|
  {
    if sz != [] { AddedBound(sz[..|sz| - 1]); }
  }

  lemma {:induction false} AddedMore(sz: seq<nat>, i: nat, x: nat)
    requires i < |sz|
    ensures CountAdded(sz[i := x]) == CountAdded(sz) - (if sz[i] > 0 then 1 else 0) + (if x > 0 then 1 else 0)
  {
    var n := |sz| - 1;
    if i < n {
      assert sz[i := x][..n] == sz[..n][i := x];
      AddedMore(sz[..n], i, x);
    } else {
      assert sz[i := x][..n] == sz[..n];
    }
  }

  /** The roots weigh as much as the one that is changed makes them. */
  lemma {:induction false} SumChange(id: seq<nat>, sz: seq<nat>, i: nat, x: nat, n: nat)
    requires i < |id| == |sz| && n <= |id| && id[i] == i
    ensures SumRoots(id, sz[i := x], n) == SumRoots(id, sz, n) + if i < n then x - sz[i] else 0
    ensures i < n ==> SumRoots(id, sz, n) >= sz[i]
  {
    if n > 0 { SumChange(id, sz, i, x, n - 1); }
  }

  /** A root that gets a parent does not count any more. */
  lemma {:induction false} SumLess(id: seq<nat>, sz: seq<nat>, i: nat, j: nat, n: nat)
    requires i < |id| == |sz| && n <= |id| && id[i] == i && j < |id| && j != i
    ensures SumRoots(id[i := j], sz, n) == SumRoots(id, sz, n) - if i < n then sz[i] else 0
    ensures CountRoots(id[i := j], n) == CountRoots(id, n) - if i < n then 1 else 0
  {
    if n > 0 { SumLess(id, sz, i, j, n - 1); }
  }

  lemma {:induction false} TwoRoots(id: seq<nat>, sz: seq<nat>, i: nat, j: nat, n: nat)
    requires i < n && j < n <= |id| && |id| == |sz| && id[i] == i && id[j] == j && i != j
    ensures SumRoots(id, sz, n) >= sz[i] + sz[j]
    ensures CountRoots(id, n) >= 2
  {
    SumLess(id, sz, i, j, n);
    SumChange(id[i := j], sz, j, 0, n);
    OneRoot(id[i := j], j, n);
  }

  lemma {:induction false} OneRoot(id: seq<nat>, j: nat, n: nat)
    requires j < n <= |id| && id[j] == j
    ensures CountRoots(id, n) >= 1
  {
    if j < n - 1 { OneRoot(id, j, n - 1); }
  }

  /** Changing the parent of a node that is no root changes no count. */
  lemma {:induction false} SumSame(id: seq<nat>, sz: seq<nat>, p: nat, q: nat, n: nat)
    requires p < |id| == |sz| && n <= |id| && id[p] != p && q != p
    ensures SumRoots(id[p := q], sz, n) == SumRoots(id, sz, n)
    ensures CountRoots(id[p := q], n) == CountRoots(id, n)
  {
    if n > 0 { SumSame(id, sz, p, q, n - 1); }
  }

  // ---- the two changes of the forest ----

  /** Path halving moves p under its grandparent: no root changes. */
  lemma {:induction false} Halve(id: seq<nat>, sz: seq<nat>, p: nat, x: nat)
    requires Weighted(id, sz) && p < |id| && id[p] != p && x < |id|
    ensures Weighted(id[p := id[id[p]]], sz) && id[id[p]] != p
    ensures Root(id[p := id[id[p]]], sz, x) == Root(id, sz, x)
    decreases |id| - sz[x]
  {
    var g := id[p := id[id[p]]];
    assert sz[id[id[p]]] > sz[p];
    if g[x] != x {
      Halve(id, sz, p, g[x]);
    }
  }

  /** Linking root i under root j, which weighs as much or more: the set of i joins that of j. */
  lemma {:induction false} LinkRoots(id: seq<nat>, sz: seq<nat>, i: nat, j: nat, x: nat)
    requires Weighted(id, sz) && i < |id| && j < |id| && i != j && id[i] == i && id[j] == j && x < |id|
    requires 1 <= sz[i] <= sz[j] && sz[i] + sz[j] <= |id|
    ensures Weighted(id[i := j], sz[j := sz[j] + sz[i]])
    ensures Root(id[i := j], sz[j := sz[j] + sz[i]], x) == if Root(id, sz, x) == i then j else Root(id, sz, x)
    decreases |id| - sz[x]
  {
    var g, w := id[i := j], sz[j := sz[j] + sz[i]];
    LinkWeighted(id, sz, i, j);
    if x != i && id[x] != x {
      LinkRoots(id, sz, i, j, id[x]);
    }
  }

  lemma LinkWeighted(id: seq<nat>, sz: seq<nat>, i: nat, j: nat)
    requires Weighted(id, sz) && i < |id| && j < |id| && i != j && id[i] == i && id[j] == j
    requires 1 <= sz[i] <= sz[j] && sz[i] + sz[j] <= |id|
    ensures Weighted(id[i := j], sz[j := sz[j] + sz[i]])
  {
    var g, w := id[i := j], sz[j := sz[j] + sz[i]];
    forall k | 0 <= k < |g| && g[k] != k ensures w[k] >= 1 && w[g[k]] >= 2 * w[k] {
      assert k != j;
    }
  }

  /** Weights of lone nodes do not matter for the roots. */
  lemma {:induction false} SameRoot(id: seq<nat>, sz: seq<nat>, w: seq<nat>, x: nat)
    requires Weighted(id, sz) && Weighted(id, w) && x < |id|
    ensures Root(id, w, x) == Root(id, sz, x)
    decreases |id| - sz[x]
  {
    if id[x] != x { SameRoot(id, sz, w, id[x]); }
  }

  // ---- the components ----

  lemma {:induction false} LoneMembers(id: seq<nat>, sz: seq<nat>)
    requires Weighted(id, sz) && forall k | 0 <= k < |id| :: id[k] == k && sz[k] == 0
    ensures WeighsMembers(id, sz)
  {
    forall r: nat | r < |id| ensures |Members(id, sz, r)| == 1 {
      assert Members(id, sz, r) == {r};
    }
  }

  lemma HalveMembers(id: seq<nat>, sz: seq<nat>, p: nat)
    requires WeighsMembers(id, sz) && p < |id| && id[p] != p
    ensures Weighted(id[p := id[id[p]]], sz) && WeighsMembers(id[p := id[id[p]]], sz)
  {
    var d := id[p := id[id[p]]];
    Halve(id, sz, p, p);
    forall x: nat | x < |id| ensures Root(d, sz, x) == Root(id, sz, x) { Halve(id, sz, p, x); }
    forall r: nat | r < |d| && d[r] == r ensures |Members(d, sz, r)| == if sz[r] == 0 then 1 else sz[r] {
      assert Members(d, sz, r) == Members(id, sz, r);
    }
  }

  lemma NewMembers(id: seq<nat>, sz: seq<nat>, p: nat)
    requires WeighsMembers(id, sz) && p < |id| && sz[p] == 0 && Weighted(id, sz[p := 1])
    ensures WeighsMembers(id, sz[p := 1])
  {
    var w := sz[p := 1];
    forall x: nat | x < |id| ensures Root(id, w, x) == Root(id, sz, x) { SameRoot(id, sz, w, x); }
    forall r: nat | r < |id| && id[r] == r ensures |Members(id, w, r)| == if w[r] == 0 then 1 else w[r] {
      assert Members(id, w, r) == Members(id, sz, r);
    }
  }

  lemma LinkMembers(id: seq<nat>, sz: seq<nat>, i: nat, j: nat)
    requires WeighsMembers(id, sz) && i < |id| && j < |id| && i != j && id[i] == i && id[j] == j
    requires 1 <= sz[i] <= sz[j] && sz[i] + sz[j] <= |id|
    ensures Weighted(id[i := j], sz[j := sz[j] + sz[i]]) && WeighsMembers(id[i := j], sz[j := sz[j] + sz[i]])
  {
    hide Members, Weighted;
    SameLength(id, sz);
    var d, w := id[i := j], sz[j := sz[j] + sz[i]];
    LinkWeighted(id, sz, i, j);
    forall r: nat | r < |d| && d[r] == r ensures |Members(d, w, r)| == if w[r] == 0 then 1 else w[r] {
      LinkedMembers(id, sz, i, j, r);
      if r == j { DisjointCard(Members(id, sz, j), Members(id, sz, i)); }
    }
  }

  lemma SameLength(id: seq<nat>, sz: seq<nat>)
    requires Weighted(id, sz)
    ensures |sz| == |id|
  {
  }

  /** The component of a root after root i was put under root j. */
  lemma LinkedMembers(id: seq<nat>, sz: seq<nat>, i: nat, j: nat, r: nat)
    requires Weighted(id, sz) && i < |id| && j < |id| && i != j && id[i] == i && id[j] == j && r != i
    requires 1 <= sz[i] <= sz[j] && sz[i] + sz[j] <= |id| && Weighted(id[i := j], sz[j := sz[j] + sz[i]])
    ensures Members(id[i := j], sz[j := sz[j] + sz[i]], r) ==
              if r == j then Members(id, sz, j) + Members(id, sz, i) else Members(id, sz, r)
    ensures Members(id, sz, j) !! Members(id, sz, i)
  {
    var d, w := id[i := j], sz[j := sz[j] + sz[i]];
    forall x: nat | x < |id| ensures Root(d, w, x) == if Root(id, sz, x) == i then j else Root(id, sz, x) {
      LinkRoots(id, sz, i, j, x);
    }
    hide Root, Weighted;
  }

  lemma DisjointCard(a: set<nat>, b: set<nat>)
    requires a !! b
    ensures |a + b| == |a| + |b|
  {
  }

  // ---- the sets ----

  /** x and y are in the same set after the pairs were united, in order. */
  ghost predicate Joined(pairs: seq<(nat, nat)>, x: nat, y: nat) {
    if pairs == [] then x == y
    else
      var prev, e := pairs[..|pairs| - 1], pairs[|pairs| - 1];
      || Joined(prev, x, y)
      || (Joined(prev, x, e.0) && Joined(prev, e.1, y))
      || (Joined(prev, x, e.1) && Joined(prev, e.0, y))
  }

  /** Joined is an equivalence that contains the pairs. */
  lemma {:induction false} JoinedRefl(pairs: seq<(nat, nat)>, x: nat)
    ensures Joined(pairs, x, x)
  {
    if pairs != [] { JoinedRefl(pairs[..|pairs| - 1], x); }
  }

  lemma {:induction false} JoinedSym(pairs: seq<(nat, nat)>, x: nat, y: nat)
    requires Joined(pairs, x, y)
    ensures Joined(pairs, y, x)
  {
    if pairs != [] {
      var prev, e := pairs[..|pairs| - 1], pairs[|pairs| - 1];
      if Joined(prev, x, y) {
        JoinedSym(prev, x, y);
      } else if Joined(prev, x, e.0) && Joined(prev, e.1, y) {
        JoinedSym(prev, x, e.0);
        JoinedSym(prev, e.1, y);
      } else {
        JoinedSym(prev, x, e.1);
        JoinedSym(prev, e.0, y);
      }
    }
  }

  lemma {:induction false} JoinedTrans(pairs: seq<(nat, nat)>, x: nat, y: nat, z: nat)
    requires Joined(pairs, x, y) && Joined(pairs, y, z)
    ensures Joined(pairs, x, z)
  {
    if pairs != [] {
      var prev, e := pairs[..|pairs| - 1], pairs[|pairs| - 1];
      forall a, b, d | Joined(prev, a, b) && Joined(prev, b, d) ensures Joined(prev, a, d) { JoinedTrans(prev, a, b, d); }
      forall a, b | Joined(prev, a, b) ensures Joined(prev, b, a) { JoinedSym(prev, a, b); }
      Cases(prev, x, y, z, e.0, e.1);
    }
  }

  /** The step of JoinedTrans: one more link between p and q. */
  lemma Cases(prev: seq<(nat, nat)>, x: nat, y: nat, z: nat, p: nat, q: nat)
    requires forall a, b, d | Joined(prev, a, b) && Joined(prev, b, d) :: Joined(prev, a, d)
    requires forall a, b | Joined(prev, a, b) :: Joined(prev, b, a)
    requires Joined(prev, x, y) || (Joined(prev, x, p) && Joined(prev, q, y)) || (Joined(prev, x, q) && Joined(prev, p, y))
    requires Joined(prev, y, z) || (Joined(prev, y, p) && Joined(prev, q, z)) || (Joined(prev, y, q) && Joined(prev, p, z))
    ensures Joined(prev, x, z) || (Joined(prev, x, p) && Joined(prev, q, z)) || (Joined(prev, x, q) && Joined(prev, p, z))
  {
    hide Joined;
  }

  lemma {:induction false} JoinedPairs(pairs: seq<(nat, nat)>, k: nat)
    requires k < |pairs|
    ensures Joined(pairs, pairs[k].0, pairs[k].1)
  {
    var prev := pairs[..|pairs| - 1];
    if k < |pairs| - 1 {
      JoinedPairs(prev, k);
    } else {
      JoinedRefl(prev, pairs[k].0);
      JoinedRefl(prev, pairs[k].1);
    }
  }

  /** It is the smallest one. */
  lemma {:induction false} JoinedLeast(pairs: seq<(nat, nat)>, rel: (nat, nat) -> bool, x: nat, y: nat)
    requires forall a :: rel(a, a)
    requires forall a, b :: rel(a, b) ==> rel(b, a)
    requires forall a, b, d :: rel(a, b) && rel(b, d) ==> rel(a, d)
    requires forall k | 0 <= k < |pairs| :: rel(pairs[k].0, pairs[k].1)
    requires Joined(pairs, x, y)
    ensures rel(x, y)
  {
    if pairs != [] {
      var prev, e := pairs[..|pairs| - 1], pairs[|pairs| - 1];
      assert forall k | 0 <= k < |prev| :: prev[k] == pairs[k];
      assert rel(e.0, e.1);
      if Joined(prev, x, y) {
        JoinedLeast(prev, rel, x, y);
      } else if Joined(prev, x, e.0) && Joined(prev, e.1, y) {
        JoinedLeast(prev, rel, x, e.0);
        JoinedLeast(prev, rel, e.1, y);
      } else {
        JoinedLeast(prev, rel, x, e.1);
        JoinedLeast(prev, rel, e.0, y);
      }
    }
  }

  /** The counters: roots, and nodes with a weight, which are also the sum of the weights of the roots. */
  ghost predicate CountsOk(id: seq<nat>, sz: seq<nat>, count: nat, added: nat) {
    && |sz| == |id|
    && count == CountRoots(id, |id|) && added == SumRoots(id, sz, |id|) == CountAdded(sz)
  }

  /** Two nodes have the same root exactly if the united pairs join them. */
  ghost predicate SetsOk(id: seq<nat>, sz: seq<nat>, united: seq<(nat, nat)>) {
    && Weighted(id, sz)
    && (forall x: nat, y: nat | x < |id| && y < |id| :: Root(id, sz, x) == Root(id, sz, y) <==> Joined(united, x, y))
  }

  class UnionFind {
    var id: seq<nat>
    var sz: seq<nat>
    var count: nat
    var added: nat
    ghost var united: seq<(nat, nat)>

    ghost predicate Valid()
      reads this
    {
      Weighted(id, sz) && WeighsMembers(id, sz) && CountsOk(id, sz, count, added) && SetsOk(id, sz, united)
    }

    constructor (n: nat)
      ensures Valid() && |id| == n && united == [] && count == n && added == 0
    {
      id := seq(n, (i: nat) => i);
      sz := seq(n, (i: nat) => 0);
      count, added, united := n, 0, [];
      new;
      Lone(id, sz, n);
      LoneMembers(id, sz);
      NoneAdded(sz);
    }

    method Clear()
      modifies this
      ensures Valid() && |id| == old(|id|) && united == [] && count == |id| && added == 0
    {
      added := 0;
      count := |id|;
      sz := seq(|id|, (i: nat) => 0);
      id := seq(|id|, (i: nat) => i);
      united := [];
      Lone(id, sz, |id|);
      LoneMembers(id, sz);
      NoneAdded(sz);
    }

    /** The root of p. It halves the path, which changes no root. */
    method Find(p0: nat) returns (p: nat)
      requires Valid() && p0 < |id|
      modifies `id
      ensures Valid() && |id| == old(|id|) && p < |id| && id[p] == p && p == old(Root(id, sz, p0))
      ensures forall x: nat | x < |id| :: Root(id, sz, x) == old(Root(id, sz, x))
      ensures forall x: nat | x < |id| :: id[x] == x <==> old(id)[x] == x
      ensures 2 * Depth(id, sz, p0) <= old(Depth(id, sz, p0)) + 1
    {
      hide Halving, Depth, Root, Weighted, WeighsMembers, CountsOk, SetsOk;
      WeightedFacts(id, sz);
      p := p0;
      ghost var t, d := 0, Depth(id, sz, p0);
      HalvingStart(id, sz, p0);
      while p != id[p]
        invariant p < |id| == old(|id|) == |sz| && Valid() && (forall k | 0 <= k < |id| :: id[k] < |id| && sz[k] <= |id|)
        invariant forall x: nat | x < |id| :: Root(id, sz, x) == old(Root(id, sz, x))
        invariant forall x: nat | x < |id| :: id[x] == x <==> old(id)[x] == x
        invariant Root(id, sz, p) == old(Root(id, sz, p0))
        invariant 0 <= t && Halving(id, sz, p0, p, t, d)
        decreases |id| - sz[p]
      {
        hide Halving, Depth, Root, Weighted, WeighsMembers, CountsOk, SetsOk;
        RootUp(id, sz, p);
        HalveAll(id, sz, p, count, added, united);
        HalveMembers(id, sz, p);
        HalvingNext(id, sz, p0, p, t, d);
        t := t + 1;
        WeightedFacts(id[p := id[id[p]]], sz);
        id := id[p := id[id[p]]];
        p := id[p];
      }
      HalvingDone(id, sz, p0, p, t, d);
      RootOf(id, sz, p);
    }

    method Connected(p: nat, q: nat) returns (b: bool)
      requires Valid() && p < |id| && q < |id|
      modifies `id
      ensures Valid() && |id| == old(|id|) && b == Joined(united, p, q)
    {
      hide WeighsMembers, CountsOk, Joined, Weighted;
      var r := Find(p);
      var s := Find(q);
      b := r == s;
    }

    predicate Exist(p: nat)
      requires p < |sz|
      reads this
    {
      sz[p] > 0
    }

    method Insert(p: nat) returns (isNew: bool)
      requires Valid() && p < |id|
      modifies `sz, `added
      ensures Valid() && Exist(p) && isNew == (old(sz)[p] == 0)
      ensures |sz| == old(|sz|) && forall k | 0 <= k < |sz| && k != p :: sz[k] == old(sz)[k]
      ensures !isNew ==> sz == old(sz)
    {
      hide WeighsMembers, CountsOk, SetsOk;
      if sz[p] == 0 {
        NewNode(id, sz, p, count, added, united);
        NewMembers(id, sz, p);
        sz := sz[p := 1];
        added := added + 1;
        return true;
      }
      return false;
    }

    /** Joins the sets of p and q. */
    method Unite(p: nat, q: nat) returns (joined: bool)
      requires Valid() && p < |id| && q < |id|
      modifies this
      ensures Valid() && |id| == old(|id|) && joined == !Joined(old(united), p, q)
      ensures united == if joined then old(united) + [(p, q)] else old(united)
      ensures count == old(count) - if joined then 1 else 0
    {
      hide WeighsMembers, CountsOk, SetsOk, Joined;
      SameSet(id, sz, united, p, q);
      var i := Find(p);
      var j := Find(q);
      if i == j {
        return false;
      }
      ghost var d, w := id, sz;
      var a := Insert(p);
      var b := Insert(q);
      SameRoot(d, w, sz, p);
      SameRoot(d, w, sz, q);
      Exists(p, i);
      Exists(q, j);
      if sz[j] < sz[i] {
        i, j := j, i;
      }
      Link(p, q, i, j);
      return true;
    }

    /** A node with a weight has a root with a weight. */
    lemma Exists(p: nat, i: nat)
      requires Valid() && p < |id| && sz[p] > 0 && i == Root(id, sz, p)
      ensures sz[i] > 0
    {
      hide WeighsMembers, CountsOk, SetsOk;
      DepthWeight(id, sz, p);
      PowPositive(Depth(id, sz, p));
    }

    method Link(p: nat, q: nat, i: nat, j: nat)
      requires Valid() && p < |id| && q < |id| && i < |id| && j < |id| && i != j && id[i] == i && id[j] == j
      requires 1 <= sz[i] <= sz[j]
      requires (i == Root(id, sz, p) && j == Root(id, sz, q)) || (i == Root(id, sz, q) && j == Root(id, sz, p))
      modifies `id, `sz, `count, `united
      ensures Valid() && |id| == old(|id|) && united == old(united) + [(p, q)] && count == old(count) - 1
    {
      hide WeighsMembers, CountsOk, SetsOk, Root, Joined;
      LinkCounts(id, sz, i, j, count, added);
      LinkWeighted(id, sz, i, j);
      LinkSets(id, sz, i, j, united, p, q);
      LinkMembers(id, sz, i, j);
      id := id[i := j];
      sz := sz[j := sz[j] + sz[i]];
      count := count - 1;
      united := united + [(p, q)];
    }
  }

  lemma SameSet(id: seq<nat>, sz: seq<nat>, united: seq<(nat, nat)>, p: nat, q: nat)
    requires SetsOk(id, sz, united) && p < |id| && q < |id|
    ensures Root(id, sz, p) == Root(id, sz, q) <==> Joined(united, p, q)
  {
  }

  lemma LinkCounts(id: seq<nat>, sz: seq<nat>, i: nat, j: nat, count: nat, added: nat)
    requires Weighted(id, sz) && CountsOk(id, sz, count, added)
    requires i < |id| && j < |id| && i != j && id[i] == i && id[j] == j && 1 <= sz[i] && 1 <= sz[j]
    ensures sz[i] + sz[j] <= |id| && count >= 1
    ensures CountsOk(id[i := j], sz[j := sz[j] + sz[i]], count - 1, added)
  {
    TwoRoots(id, sz, i, j, |id|);
    AddedBound(sz);
    SumLess(id, sz, i, j, |id|);
    SumChange(id[i := j], sz, j, sz[j] + sz[i], |id|);
    AddedMore(sz, j, sz[j] + sz[i]);
  }

  lemma LinkSets(id: seq<nat>, sz: seq<nat>, i: nat, j: nat, united: seq<(nat, nat)>, p: nat, q: nat)
    requires SetsOk(id, sz, united) && p < |id| && q < |id|
    requires i < |id| && j < |id| && i != j && id[i] == i && id[j] == j && 1 <= sz[i] <= sz[j] && sz[i] + sz[j] <= |id|
    requires (i == Root(id, sz, p) && j == Root(id, sz, q)) || (i == Root(id, sz, q) && j == Root(id, sz, p))
    ensures SetsOk(id[i := j], sz[j := sz[j] + sz[i]], united + [(p, q)])
  {
    var d, w := id[i := j], sz[j := sz[j] + sz[i]];
    LinkWeighted(id, sz, i, j);
    forall x: nat, y: nat | x < |d| && y < |d| ensures Root(d, w, x) == Root(d, w, y) <==> Joined(united + [(p, q)], x, y) {
      LinkRoots(id, sz, i, j, x);
      LinkRoots(id, sz, i, j, y);
      JoinedNext(united, p, q, x, y);
      hide Joined, Root;
      assert Root(id, sz, x) == Root(id, sz, p) <==> Joined(united, x, p);
      assert Root(id, sz, x) == Root(id, sz, q) <==> Joined(united, x, q);
      assert Root(id, sz, p) == Root(id, sz, y) <==> Joined(united, p, y);
      assert Root(id, sz, q) == Root(id, sz, y) <==> Joined(united, q, y);
    }
  }

  lemma JoinedNext(pairs: seq<(nat, nat)>, p: nat, q: nat, x: nat, y: nat)
    ensures Joined(pairs + [(p, q)], x, y) <==>
      Joined(pairs, x, y) || (Joined(pairs, x, p) && Joined(pairs, q, y)) || (Joined(pairs, x, q) && Joined(pairs, p, y))
  {
    assert (pairs + [(p, q)])[..|pairs|] == pairs;
  }

  lemma HalveAll(id: seq<nat>, sz: seq<nat>, p: nat, count: nat, added: nat, united: seq<(nat, nat)>)
    requires Weighted(id, sz) && CountsOk(id, sz, count, added) && SetsOk(id, sz, united) && p < |id| && id[p] != p
    ensures var d := id[p := id[id[p]]];
      && Weighted(d, sz) && CountsOk(d, sz, count, added) && SetsOk(d, sz, united) && sz[id[id[p]]] > sz[p]
      && (forall x: nat | x < |id| :: Root(d, sz, x) == Root(id, sz, x))
      && (forall x: nat | x < |id| :: d[x] == x <==> id[x] == x)
  {
    var d := id[p := id[id[p]]];
    Halve(id, sz, p, p);
    forall x: nat | x < |id| ensures Root(d, sz, x) == Root(id, sz, x) { Halve(id, sz, p, x); }
    SumSame(id, sz, p, id[id[p]], |id|);
    assert sz[id[id[p]]] >= sz[id[p]] > sz[p];
    hide SumRoots, CountRoots, CountAdded, Joined;
  }

  lemma PowPositive(n: nat)
    ensures Pow2(n) >= 1
  {
  }

  /** A node without a weight is a root with nothing under it. */
  lemma NewNode(id: seq<nat>, sz: seq<nat>, p: nat, count: nat, added: nat, united: seq<(nat, nat)>)
    requires Weighted(id, sz) && CountsOk(id, sz, count, added) && SetsOk(id, sz, united) && p < |id| && sz[p] == 0
    ensures id[p] == p && Weighted(id, sz[p := 1])
    ensures CountsOk(id, sz[p := 1], count, added + 1) && SetsOk(id, sz[p := 1], united)
  {
    AddedMore(sz, p, 1);
    SumChange(id, sz, p, 1, |id|);
    hide SumRoots, CountRoots, CountAdded, Joined;
    forall x: nat | x < |id| ensures Root(id, sz[p := 1], x) == Root(id, sz, x) { SameRoot(id, sz, sz[p := 1], x); }
  }

  lemma {:induction false} Lone(id: seq<nat>, sz: seq<nat>, n: nat)
    requires n <= |id| == |sz| && forall k | 0 <= k < |id| :: id[k] == k && sz[k] == 0
    ensures CountRoots(id, n) == n && SumRoots(id, sz, n) == 0
  {
    if n > 0 { Lone(id, sz, n - 1); }
  }

  lemma {:induction false} NoneAdded(sz: seq<nat>)
    requires forall k | 0 <= k < |sz| :: sz[k] == 0
    ensures CountAdded(sz) == 0
  {
    if sz != [] { NoneAdded(sz[..|sz| - 1]); }
  }
}
