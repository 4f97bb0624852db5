/** A binary heap that records in every element where it is, so that an element can be lowered (priority_queue.h). */
module PriorityQueues {

  /** Every queued element knows its place. */
  ghost predicate Indexed(pq: seq<nat>, priority: seq<nat>, n: nat) {
    && |pq| >= 1 && |priority| == n
    && (forall i | 1 <= i < |pq| :: pq[i] < n && priority[pq[i]] == i)
  }

  predicate Queued(pq: seq<nat>, priority: seq<nat>, x: nat) {
    x < |priority| && 1 <= priority[x] < |pq| && pq[priority[x]] == x
  }

  function W(pq: seq<nat>, weight: seq<int>, i: nat): int {
    if i < |pq| && pq[i] < |weight| then weight[pq[i]] else 0
  }

  /** Among the places 1..n every one but k is not below its parent, and k stands between its parent and its children. */
  ghost predicate HeapBut(pq: seq<nat>, weight: seq<int>, n: nat, k: nat) {
    && (forall i, j {:trigger W(pq, weight, i), W(pq, weight, j)} | 2 <= i <= n && j == i / 2 && i != k && j != k ::
          W(pq, weight, j) <= W(pq, weight, i))
    && (forall i {:trigger W(pq, weight, i)} | 2 <= i <= n && i / 2 == k && k >= 2 :: W(pq, weight, k / 2) <= W(pq, weight, i))
  }

  /** k is not above its children. */
  ghost predicate DownOk(pq: seq<nat>, weight: seq<int>, n: nat, k: nat) {
    forall i {:trigger W(pq, weight, i)} | 2 <= i <= n && i / 2 == k :: W(pq, weight, k) <= W(pq, weight, i)
  }

  ghost predicate UpOk(pq: seq<nat>, weight: seq<int>, n: nat, k: nat) {
    2 <= k <= n ==> W(pq, weight, k / 2) <= W(pq, weight, k)
  }

  ghost predicate Heap(pq: seq<nat>, weight: seq<int>, n: nat) {
    forall i, j {:trigger W(pq, weight, i), W(pq, weight, j)} | 2 <= i <= n && j == i / 2 :: W(pq, weight, j) <= W(pq, weight, i)
  }

  lemma WholeHeap(pq: seq<nat>, weight: seq<int>, n: nat, k: nat)
    requires HeapBut(pq, weight, n, k) && DownOk(pq, weight, n, k) && UpOk(pq, weight, n, k)
    ensures Heap(pq, weight, n)
  {
  }

  /** The top of a heap is a minimum. */
  lemma {:induction false} TopIsMin(pq: seq<nat>, weight: seq<int>, n: nat, i: nat)
    requires Heap(pq, weight, n) && 1 <= i <= n
    ensures W(pq, weight, 1) <= W(pq, weight, i)
  {
    if i > 1 {
      TopIsMin(pq, weight, n, i / 2);
      assert W(pq, weight, i / 2) <= W(pq, weight, i);
    }
  }

  function Swap(s: seq<nat>, i: nat, j: nat): seq<nat>
    requires i < |s| && j < |s|
  {
    s[i := s[j]][j := s[i]]
  }

  /** After an exchange with its parent the element stands at the parent's place, and all is well below it. */
  lemma RiseStep(pq: seq<nat>, weight: seq<int>, n: nat, k: nat)
    requires 2 <= k <= n < |pq| && HeapBut(pq, weight, n, k) && DownOk(pq, weight, n, k)
    requires W(pq, weight, k) < W(pq, weight, k / 2)
    ensures HeapBut(Swap(pq, k, k / 2), weight, n, k / 2) && DownOk(Swap(pq, k, k / 2), weight, n, k / 2)
  {
    var q := Swap(pq, k, k / 2);
    forall i: nat ensures W(q, weight, i) == W(pq, weight, if i == k then k / 2 else if i == k / 2 then k else i) {}
    forall i | 2 <= i <= n && i != k / 2 && i / 2 != k / 2 ensures W(q, weight, i / 2) <= W(q, weight, i) {
      Edge(pq, weight, n, k, i);
    }
    forall i | 2 <= i <= n && i / 2 == k / 2 ensures W(q, weight, k / 2) <= W(q, weight, i) {
      Edge(pq, weight, n, k, i);
    }
    if k / 2 >= 2 {
      forall i | 2 <= i <= n && i / 2 == k / 2 ensures W(q, weight, k / 2 / 2) <= W(q, weight, i) {
        Edge(pq, weight, n, k, i);
        Edge(pq, weight, n, k, k / 2);
      }
    }
  }

  /** What is known about the edge above place i. */
  lemma Edge(pq: seq<nat>, weight: seq<int>, n: nat, k: nat, i: nat)
    requires 2 <= i <= n && HeapBut(pq, weight, n, k) && DownOk(pq, weight, n, k)
    ensures i != k ==> W(pq, weight, i / 2) <= W(pq, weight, i)
    ensures i / 2 == k && k >= 2 ==> W(pq, weight, k / 2) <= W(pq, weight, i)
  {
  }

  /** After an exchange with its smaller child j the element stands at j's place, and all is well above it. */
  lemma SinkStep(pq: seq<nat>, weight: seq<int>, n: nat, k: nat, j: nat)
    requires 1 <= k && 2 <= j <= n < |pq| && j / 2 == k && HeapBut(pq, weight, n, k) && UpOk(pq, weight, n, k)
    requires W(pq, weight, j) < W(pq, weight, k)
    requires forall i | 2 <= i <= n && i / 2 == k :: W(pq, weight, j) <= W(pq, weight, i)
    ensures HeapBut(Swap(pq, k, j), weight, n, j) && UpOk(Swap(pq, k, j), weight, n, j)
  {
    var q := Swap(pq, k, j);
    forall i: nat ensures W(q, weight, i) == W(pq, weight, if i == k then j else if i == j then k else i) {}
    forall i | 2 <= i <= n && i != j && i / 2 != j ensures W(q, weight, i / 2) <= W(q, weight, i) {
      SinkEdge(pq, weight, n, k, i);
      SinkEdge(pq, weight, n, k, j);
    }
    forall i | 2 <= i <= n && i / 2 == j ensures W(q, weight, j / 2) <= W(q, weight, i) {
      SinkEdge(pq, weight, n, k, i);
    }
  }

  lemma SinkEdge(pq: seq<nat>, weight: seq<int>, n: nat, k: nat, i: nat)
    requires 2 <= i <= n && HeapBut(pq, weight, n, k) && UpOk(pq, weight, n, k)
    ensures i / 2 != k ==> W(pq, weight, i / 2) <= W(pq, weight, i)
    ensures i / 2 == k && k >= 2 ==> W(pq, weight, k / 2) <= W(pq, weight, i)
  {
  }

  class PriorityQueue {
    var weight: seq<int>
    var priority: seq<nat>
    var pq: seq<nat>

    ghost predicate Valid()
      reads this
    {
      Indexed(pq, priority, |weight|) && Heap(pq, weight, |pq| - 1)
    }

    constructor (weight: seq<int>)
      ensures Valid() && this.weight == weight && forall x: nat :: !In(x)
    {
      this.weight := weight;
      priority := seq(|weight|, i => 0);
      pq := [0];
    }

    function Size(): nat
      reads this
      requires |pq| >= 1
    {
      |pq| - 1
    }

    predicate In(x: nat)
      reads this
    {
      Queued(pq, priority, x)
    }

    predicate Less(i: nat, j: nat)
      reads this
      requires 1 <= i < |pq| && 1 <= j < |pq| && pq[i] < |weight| && pq[j] < |weight|
    {
      weight[pq[i]] < weight[pq[j]]
    }

    /** Exchanges two places, and tells the elements. */
    method Exch(i: nat, j: nat)
      requires Indexed(pq, priority, |weight|) && 1 <= i < |pq| && 1 <= j < |pq|
      modifies `pq, `priority
      ensures Indexed(pq, priority, |weight|) && pq == Swap(old(pq), i, j)
      ensures forall x: nat :: In(x) <==> old(In(x))
    {
      pq := pq[i := pq[j]][j := pq[i]];
      priority := priority[pq[i] := i];
      priority := priority[pq[j] := j];
      forall x: nat ensures In(x) <==> old(In(x)) {
        if old(In(x)) { assert pq[priority[x]] == x; }
      }
    }

    /** Only place k may be below its parent. */
    method FixUp(k0: nat)
      requires Indexed(pq, priority, |weight|) && 1 <= k0 < |pq|
      requires HeapBut(pq, weight, |pq| - 1, k0) && DownOk(pq, weight, |pq| - 1, k0)
      modifies `pq, `priority
      ensures Valid() && |pq| == old(|pq|) && forall x: nat :: In(x) <==> old(In(x))
    {
      hide HeapBut, DownOk, Queued;
      var k := k0;
      while k > 1 && Less(k, k / 2)
        invariant Indexed(pq, priority, |weight|) && 1 <= k < |pq| == old(|pq|)
        invariant HeapBut(pq, weight, |pq| - 1, k) && DownOk(pq, weight, |pq| - 1, k)
        invariant forall x: nat :: In(x) <==> old(In(x))
      {
        RiseStep(pq, weight, |pq| - 1, k);
        Exch(k, k / 2);
        k := k / 2;
      }
      WholeHeap(pq, weight, |pq| - 1, k);
    }

    /** Only place k may be above its children; the places after n do not take part. */
    method FixDown(k0: nat, n: nat)
      requires Indexed(pq, priority, |weight|) && 1 <= k0 && n < |pq|
      requires HeapBut(pq, weight, n, k0) && UpOk(pq, weight, n, k0)
      modifies `pq, `priority
      ensures Indexed(pq, priority, |weight|) && Heap(pq, weight, n)
      ensures |pq| == old(|pq|) && pq[n + 1..] == old(pq)[n + 1..] && forall x: nat :: In(x) <==> old(In(x))
    {
      hide HeapBut, UpOk, Queued;
      var k := k0;
      while k <= n / 2
        invariant Indexed(pq, priority, |weight|) && 1 <= k && |pq| == old(|pq|) && pq[n + 1..] == old(pq)[n + 1..]
        invariant HeapBut(pq, weight, n, k) && UpOk(pq, weight, n, k)
        invariant forall x: nat :: In(x) <==> old(In(x))
        decreases n - k
      {
        var j := k + k;
        if j < n && Less(j + 1, j) {
          j := j + 1;
        }
        if !Less(j, k) {
          break;
        }
        SinkStep(pq, weight, n, k, j);
        Exch(k, j);
        k := j;
      }
      WholeHeap(pq, weight, n, k);
    }

    /** A new element. */
    method Insert(v: nat)
      requires Valid() && v < |weight| && !In(v)
      modifies `pq, `priority
      ensures Valid() && |pq| == old(|pq|) + 1 && forall x: nat :: In(x) <==> old(In(x)) || x == v
    {
      hide Heap, HeapBut, DownOk, Queued;
      Appended(pq, priority, weight, v);
      HeapGrows(pq, pq + [v], weight);
      pq := pq + [v];
      priority := priority[v := |pq| - 1];
      FixUp(|pq| - 1);
    }

    /** Takes out an element of minimal weight. */
    method GetMin() returns (top: nat)
      requires Valid() && Size() > 0
      modifies `pq, `priority
      ensures Valid() && |pq| == old(|pq|) - 1 && old(In(top)) && top < |weight|
      ensures forall x: nat :: In(x) <==> old(In(x)) && x != top
      ensures forall x: nat | old(In(x)) :: x < |weight| && weight[top] <= weight[x]
    {
      hide Heap, Queued;
      top := pq[1];
      TopOfAll(pq, priority, weight);
      HeapShrinks(pq, weight);
      Exch(1, Size());
      FixDown(1, Size() - 1);
      assert pq[|pq| - 1..][0] == top;
      Popped(pq, priority, weight);
      pq := pq[..|pq| - 1];
    }

    /** The element v weighs less than before. */
    method Lower(v: nat)
      requires Indexed(pq, priority, |weight|) && In(v)
      requires HeapBut(pq, weight, |pq| - 1, priority[v]) && DownOk(pq, weight, |pq| - 1, priority[v])
      modifies `pq, `priority
      ensures Valid() && |pq| == old(|pq|) && forall x: nat :: In(x) <==> old(In(x))
    {
      FixUp(priority[v]);
    }
  }

  lemma Appended(pq: seq<nat>, priority: seq<nat>, weight: seq<int>, v: nat)
    requires Indexed(pq, priority, |weight|) && v < |weight| && !Queued(pq, priority, v)
    ensures var q, r := pq + [v], priority[v := |pq|];
      && Indexed(q, r, |weight|) && (forall x: nat :: Queued(q, r, x) <==> Queued(pq, priority, x) || x == v)
      && (forall i: nat | i < |pq| :: W(q, weight, i) == W(pq, weight, i))
  {
    var q, r := pq + [v], priority[v := |pq|];
    forall i | 1 <= i < |q| ensures q[i] < |weight| && r[q[i]] == i {
      if i < |pq| { assert q[i] == pq[i] && Queued(pq, priority, pq[i]); }
    }
  }

  lemma HeapGrows(p: seq<nat>, q: seq<nat>, weight: seq<int>)
    requires |p| >= 1 && |q| == |p| + 1 && Heap(p, weight, |p| - 1)
    requires forall i: nat | i < |p| :: W(q, weight, i) == W(p, weight, i)
    ensures HeapBut(q, weight, |q| - 1, |q| - 1) && DownOk(q, weight, |q| - 1, |q| - 1)
  {
    forall i | 2 <= i <= |q| - 1 && i != |q| - 1 ensures W(q, weight, i / 2) <= W(q, weight, i) {
      assert W(p, weight, i / 2) <= W(p, weight, i);
    }
  }

  /** Putting the last element at the top leaves only the top to mend, among the places before the last. */
  lemma HeapShrinks(p: seq<nat>, weight: seq<int>)
    requires |p| >= 2 && Heap(p, weight, |p| - 1)
    ensures HeapBut(Swap(p, 1, |p| - 1), weight, |p| - 2, 1) && UpOk(Swap(p, 1, |p| - 1), weight, |p| - 2, 1)
  {
    var q := Swap(p, 1, |p| - 1);
    forall i | 2 <= i <= |p| - 2 && i / 2 != 1 ensures W(q, weight, i / 2) <= W(q, weight, i) {
      assert W(p, weight, i / 2) <= W(p, weight, i);
    }
  }

  lemma TopOfAll(pq: seq<nat>, priority: seq<nat>, weight: seq<int>)
    requires Indexed(pq, priority, |weight|) && Heap(pq, weight, |pq| - 1) && |pq| >= 2
    ensures Queued(pq, priority, pq[1]) && pq[1] < |weight|
    ensures forall x: nat | Queued(pq, priority, x) :: x < |weight| && weight[pq[1]] <= weight[x]
  {
    hide Heap;
    forall x: nat | Queued(pq, priority, x) ensures x < |weight| && weight[pq[1]] <= weight[x] {
      TopIsMin(pq, weight, |pq| - 1, priority[x]);
    }
  }

  /** The last place is given up. */
  lemma Popped(pq: seq<nat>, priority: seq<nat>, weight: seq<int>)
    requires Indexed(pq, priority, |weight|) && |pq| >= 2 && Heap(pq, weight, |pq| - 2)
    ensures var q := pq[..|pq| - 1];
      && Indexed(q, priority, |weight|) && Heap(q, weight, |q| - 1)
      && forall x: nat :: Queued(q, priority, x) <==> Queued(pq, priority, x) && x != pq[|pq| - 1]
  {
    var q := pq[..|pq| - 1];
    forall i: nat | i < |q| ensures W(q, weight, i) == W(pq, weight, i) {}
    SameHeap(pq, q, weight, |q| - 1);
    hide Heap;
  }

  lemma SameHeap(p: seq<nat>, q: seq<nat>, weight: seq<int>, n: nat)
    requires Heap(p, weight, n) && forall i: nat | i <= n :: W(q, weight, i) == W(p, weight, i)
    ensures Heap(q, weight, n)
  {
    forall i | 2 <= i <= n ensures W(q, weight, i / 2) <= W(q, weight, i) {
      assert W(p, weight, i / 2) <= W(p, weight, i);
    }
  }

  /** Lowering the weight of a queued element leaves exactly what Lower asks for. */
  lemma AfterLowering(pq: seq<nat>, priority: seq<nat>, weight: seq<int>, v: nat, x: int)
    requires Indexed(pq, priority, |weight|) && Heap(pq, weight, |pq| - 1) && Queued(pq, priority, v) && x <= weight[v]
    ensures HeapBut(pq, weight[v := x], |pq| - 1, priority[v]) && DownOk(pq, weight[v := x], |pq| - 1, priority[v])
  {
    var w, k := weight[v := x], priority[v];
    forall i | 1 <= i < |pq| ensures W(pq, w, i) == if i == k then x else W(pq, weight, i) {}
    forall i | 2 <= i < |pq| ensures W(pq, weight, i / 2) <= W(pq, weight, i) {}
    forall i | 2 <= i < |pq| && i / 2 == k && k >= 2 ensures W(pq, w, k / 2) <= W(pq, w, i) {
      assert W(pq, weight, k / 2) <= W(pq, weight, k) <= W(pq, weight, i);
    }
  }

  /** Taking out one element after the other gives them in the order of their weights. */
  method Drain(q: PriorityQueue) returns (s: seq<nat>)
    requires q.Valid()
    modifies q
    ensures q.Valid() && q.Size() == 0 && |s| == old(q.Size())
    ensures forall x: nat :: x in s <==> old(q.In(x))
    ensures q.weight == old(q.weight) && forall k | 0 <= k < |s| :: s[k] < |q.weight|
    ensures forall k, l | 0 <= k < l < |s| :: s[k] != s[l] && q.weight[s[k]] <= q.weight[s[l]]
  {
    s := [];
    while q.Size() > 0
      invariant q.Valid() && q.weight == old(q.weight) && |s| + q.Size() == old(q.Size())
      invariant forall x: nat :: old(q.In(x)) <==> q.In(x) || x in s
      invariant forall k | 0 <= k < |s| :: s[k] < |q.weight| && !q.In(s[k])
      invariant forall k, x: nat | 0 <= k < |s| && q.In(x) :: q.weight[s[k]] <= q.weight[x]
      invariant forall k, l | 0 <= k < l < |s| :: s[k] != s[l] && q.weight[s[k]] <= q.weight[s[l]]
      decreases q.Size()
    {
      var top := q.GetMin();
      s := s + [top];
    }
  }
}
