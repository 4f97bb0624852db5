/** The table of the threads that hold pool blocks (thread_id.cpp): 64 slots, each with the set of
    file blocks its thread may hold (thread_mask_t). */
module Threads {
  import opened Wrappers

  const MAX_THREAD: nat := 64

  datatype Slot = NoThread | Thread(id: nat, blocks: set<nat>)

  /** The first slot of a thread, or the number of slots if it has none. */
  function IndexOf(s: seq<Slot>, id: nat): (k: nat)
    ensures k <= |s|
    ensures k < |s| ==> s[k].Thread? && s[k].id == id
    ensures forall j | 0 <= j < k :: !(s[j].Thread? && s[j].id == id)
  {
    if s == [] || (s[0].Thread? && s[0].id == id) then 0 else 1 + IndexOf(s[1..], id)
  }

  /** The first slot without a thread, or the number of slots if all are taken. */
  function FirstFree(s: seq<Slot>): (k: nat)
    ensures k <= |s|
    ensures k < |s| ==> s[k].NoThread?
    ensures forall j | 0 <= j < k :: s[j].Thread?
  {
    if s == [] || s[0].NoThread? then 0 else 1 + FirstFree(s[1..])
  }

  ghost predicate DistinctIds(s: seq<Slot>) {
    forall i, j | 0 <= i < j < |s| && s[i].Thread? && s[j].Thread? :: s[i].id != s[j].id
  }

  function CountThreads(s: seq<Slot>): nat {
    if s == [] then 0 else CountThreads(s[..|s| - 1]) + if s[|s| - 1].Thread? then 1 else 0
  }

  lemma {:induction false} CountChange(s: seq<Slot>, k: nat, x: Slot)
    requires k < |s|
    ensures CountThreads(s[k := x]) == CountThreads(s) - (if s[k].Thread? then 1 else 0) + (if x.Thread? then 1 else 0)
    ensures CountThreads(s) >= if s[k].Thread? then 1 else 0
  {
    var n := |s| - 1;
    if k < n {
      assert s[k := x][..n] == s[..n][k := x];
      CountChange(s[..n], k, x);
    } else {
      assert s[k := x][..n] == s[..n];
    }
  }

  class ThreadTable {
    var data: seq<Slot>
    var size: nat

    ghost predicate Valid()
      reads this
    {
      |data| == MAX_THREAD && DistinctIds(data) && size == CountThreads(data)
    }

    constructor ()
      ensures Valid() && forall k | 0 <= k < MAX_THREAD :: data[k].NoThread?
    {
      data := seq(MAX_THREAD, i => NoThread);
      size := 0;
      new;
      NoThreads(data);
    }

    method Find(id: nat) returns (k: nat)
      requires Valid()
      ensures k == IndexOf(data, id)
    {
      k := 0;
      while k < |data| && !(data[k].Thread? && data[k].id == id)
        invariant k <= |data|
        invariant forall j | 0 <= j < k :: !(data[j].Thread? && data[j].id == id)
      {
        k := k + 1;
      }
    }

    /** The slot of a thread, which gets the first free one if it has none; none if all are taken. */
    method Insert(id: nat) returns (r: Option<nat>)
      requires Valid()
      modifies this
      ensures Valid()
      ensures data == Inserted(old(data), id) && r == InsertedAt(old(data), id)
    {
      var k := 0;
      while k < |data| && !(data[k].NoThread? || data[k].id == id)
        invariant k <= |data|
        invariant forall j | 0 <= j < k :: data[j].Thread? && data[j].id != id
      {
        k := k + 1;
      }
      if k == |data| {
        return None;
      }
      if data[k].NoThread? {
        var other := k + 1;
        while other < |data| && !(data[other].Thread? && data[other].id == id)
          invariant k < other <= |data|
          invariant forall j | 0 <= j < other :: !(data[j].Thread? && data[j].id == id)
        {
          other := other + 1;
        }
        if other == |data| {
          CountChange(data, k, Thread(id, {}));
          data := data[k := Thread(id, {})];
          size := size + 1;
        } else {
          k := other;
        }
      }
      return Some(k);
    }

    method Erase(id: nat) returns (ok: bool)
      requires Valid()
      modifies this
      ensures Valid()
      ensures ok <==> IndexOf(old(data), id) < MAX_THREAD
      ensures data == if ok then old(data)[IndexOf(old(data), id) := NoThread] else old(data)
    {
      var k := Find(id);
      if k == |data| {
        return false;
      }
      CountChange(data, k, NoThread);
      data := data[k := NoThread];
      size := size - 1;
      return true;
    }

    /** Replaces the block set of the thread in slot k (set_block, clr_block, clear). */
    method SetBlocks(k: nat, blocks: set<nat>)
      requires Valid() && k < MAX_THREAD && data[k].Thread?
      modifies this
      ensures Valid() && data == old(data)[k := Thread(old(data)[k].id, blocks)]
    {
      CountChange(data, k, Thread(data[k].id, blocks));
      data := data[k := Thread(data[k].id, blocks)];
    }
  }

  function InsertedAt(s: seq<Slot>, id: nat): Option<nat> {
    if IndexOf(s, id) < |s| then Some(IndexOf(s, id))
    else if FirstFree(s) < |s| then Some(FirstFree(s))
    else None
  }

  function Inserted(s: seq<Slot>, id: nat): seq<Slot> {
    if IndexOf(s, id) == |s| && FirstFree(s) < |s| then s[FirstFree(s) := Thread(id, {})] else s
  }

  /** A thread keeps the slot it has, another thread's slot is not touched, and a new slot starts without blocks. */
  lemma InsertKeeps(s: seq<Slot>, id: nat)
    requires DistinctIds(s)
    ensures DistinctIds(Inserted(s, id)) && |Inserted(s, id)| == |s|
    ensures forall k | 0 <= k < |s| && s[k].Thread? :: Inserted(s, id)[k] == s[k]
    ensures forall k | 0 <= k < |s| && s[k].NoThread? && Inserted(s, id)[k].Thread? :: Inserted(s, id)[k] == Thread(id, {})
    ensures InsertedAt(s, id).None? <==> forall k | 0 <= k < |s| :: s[k].Thread? && s[k].id != id
    ensures InsertedAt(s, id).Some? ==> IndexOf(Inserted(s, id), id) == InsertedAt(s, id).value < |s|
  {
  }

  lemma {:induction false} NoThreads(s: seq<Slot>)
    requires forall k | 0 <= k < |s| :: s[k].NoThread?
    ensures CountThreads(s) == 0
  {
    if s != [] { NoThreads(s[..|s| - 1]); }
  }
}
