/** The two plans of a query: scan the table, or seek with the clustered index (maketable_select.hpp). */
module QueryPlans {
  import opened Wrappers
  import opened Queries
  import opened KeyOrders
  import opened QueryScans
  import IndexTrees

  /** The chosen rows among lo..hi, in their order. */
  ghost function Pick(rows: seq<Record>, chosen: set<nat>, lo: nat, hi: nat): seq<Record>
    requires lo <= hi <= |rows|
    decreases hi - lo
  {
    if lo == hi then [] else Pick(rows, chosen, lo, hi - 1) + if hi - 1 in chosen then [rows[hi - 1]] else []
  }

  lemma {:induction false} PickConcat(rows: seq<Record>, chosen: set<nat>, lo: nat, mid: nat, hi: nat)
    requires lo <= mid <= hi <= |rows|
    ensures Pick(rows, chosen, lo, hi) == Pick(rows, chosen, lo, mid) + Pick(rows, chosen, mid, hi)
    decreases hi - mid
  {
    if mid < hi { PickConcat(rows, chosen, lo, mid, hi - 1); }
  }

  lemma {:induction false} PickFrom(rows: seq<Record>, chosen: set<nat>, lo: nat, hi: nat, k: nat) returns (i: nat)
    requires lo <= hi <= |rows| && k < |Pick(rows, chosen, lo, hi)|
    ensures lo <= i < hi && i in chosen && Pick(rows, chosen, lo, hi)[k] == rows[i]
    decreases hi - lo
  {
    if k < |Pick(rows, chosen, lo, hi - 1)| {
      i := PickFrom(rows, chosen, lo, hi - 1, k);
    } else {
      i := hi - 1;
    }
  }

  lemma {:induction false} PickSame(rows: seq<Record>, s: set<nat>, t: set<nat>, lo: nat, hi: nat)
    requires lo <= hi <= |rows| && forall i: nat | lo <= i < hi :: i in s <==> i in t
    ensures Pick(rows, s, lo, hi) == Pick(rows, t, lo, hi)
    decreases hi - lo
  {
    if lo < hi { PickSame(rows, s, t, lo, hi - 1); }
  }

  /** The rows that satisfy a predicate, in their order. */
  function Filter(rows: seq<Record>, want: Record -> bool): seq<Record> {
    if rows == [] then []
    else Filter(rows[..|rows| - 1], want) + if want(rows[|rows| - 1]) then [rows[|rows| - 1]] else []
  }

  lemma {:induction false} PickIsFilter(rows: seq<Record>, chosen: set<nat>, want: Record -> bool, hi: nat)
    requires hi <= |rows| && forall i: nat | i < hi :: i in chosen <==> want(rows[i])
    ensures Pick(rows, chosen, 0, hi) == Filter(rows[..hi], want)
  {
    if hi > 0 {
      PickIsFilter(rows, chosen, want, hi - 1);
      assert rows[..hi][..hi - 1] == rows[..hi - 1];
    }
  }

  /** The picked rows before row i are less than it, and those after it are greater. */
  lemma PickSplit(key: seq<KeyCol>, rows: seq<Record>, chosen: set<nat>, i: nat)
    requires i < |rows| && Sorted(key, rows)
    ensures var a, b := Pick(rows, chosen, 0, i), Pick(rows, chosen, i + 1, |rows|);
      && Pick(rows, chosen, 0, |rows|) == a + (if i in chosen then [rows[i]] else []) + b
      && (forall k | 0 <= k < |a| :: KeyLess(key, a[k], rows[i]))
      && (forall k | 0 <= k < |b| :: KeyLess(key, rows[i], b[k]))
  {
    var a, b := Pick(rows, chosen, 0, i), Pick(rows, chosen, i + 1, |rows|);
    PickConcat(rows, chosen, 0, i + 1, |rows|);
    forall k | 0 <= k < |a| ensures KeyLess(key, a[k], rows[i]) { var j := PickFrom(rows, chosen, 0, i, k); }
    forall k | 0 <= k < |b| ensures KeyLess(key, rows[i], b[k]) { var j := PickFrom(rows, chosen, i + 1, |rows|, k); }
  }

  /** Picking one more row puts it between these. */
  lemma PickMore(rows: seq<Record>, chosen: set<nat>, i: nat)
    requires i < |rows|
    ensures Pick(rows, chosen + {i}, 0, |rows|) == Pick(rows, chosen, 0, i) + [rows[i]] + Pick(rows, chosen, i + 1, |rows|)
  {
    PickConcat(rows, chosen + {i}, 0, i + 1, |rows|);
    PickSame(rows, chosen, chosen + {i}, 0, i);
    PickSame(rows, chosen, chosen + {i}, i + 1, |rows|);
  }

  /** Some of the rows at these positions, in their order. */
  ghost predicate PartOf(rows: seq<Record>, all: set<nat>, r: seq<Record>) {
    exists chosen: set<nat> :: chosen <= all && r == Pick(rows, chosen, 0, |rows|)
  }

  lemma {:induction false} PickAtMost(rows: seq<Record>, chosen: set<nat>, all: set<nat>, hi: nat)
    requires hi <= |rows| && chosen <= all
    ensures |Pick(rows, chosen, 0, hi)| <= |Pick(rows, all, 0, hi)|
    ensures multiset(Pick(rows, chosen, 0, hi)) <= multiset(Pick(rows, all, 0, hi))
  {
    if hi > 0 { PickAtMost(rows, chosen, all, hi - 1); }
  }

  lemma PartAtMost(rows: seq<Record>, all: set<nat>, r: seq<Record>)
    requires PartOf(rows, all, r)
    ensures |r| <= |Pick(rows, all, 0, |rows|)| && multiset(r) <= multiset(Pick(rows, all, 0, |rows|))
  {
    var chosen: set<nat> :| chosen <= all && r == Pick(rows, chosen, 0, |rows|);
    PickAtMost(rows, chosen, all, |rows|);
  }

  /** How many rows TOP lets through: the limit is looked at after a row was added. */
  function Cap(limit: Option<nat>): nat {
    if limit.Some? && limit.value > 0 then limit.value else 1
  }

  function Min(a: nat, b: nat): nat { if a < b then a else b }

  // ---- what a seek finds ----

  /** Does the loop of the condition pass over rows that are not in use? Those from the start of the table do, and the
      linear look-up in a table of one data page. */
  predicate Skips(q: Query, c: Cond)
    requires q.key != []
  {
    match c
    case Where(_, _) => |q.key| == 1 && q.root.DataRoot?
    case In(_, _) => |q.key| == 1 && q.root.DataRoot?
    case Less(_, _) => q.key[0].order == ASC
    case LessEq(_, _) => q.key[0].order == ASC
    case Greater(_, _) => q.key[0].order == DESC
    case GreaterEq(_, _) => q.key[0].order == DESC
    case _ => false
  }

  /** The position from which on the loop of the condition finds row p. */
  ghost function StartFor(q: Query, c: Cond, p: Record): nat
    requires q.key != []
  {
    match c
    case Where(_, v) => q.StartOf(v)
    case In(_, _) => q.StartOf(Val(p, q.key[0].col))
    case LessEq(_, v) => q.StartOf(v)
    case GreaterEq(_, v) => q.StartOf(v)
    case Between(_, lo, hi) => q.StartOf(if q.key[0].order == ASC then lo else hi)
    case _ => 0
  }

  /** The condition finds row i: a strict comparison finds every row it accepts, as no search starts behind one. */
  ghost predicate Finds(q: Query, c: Cond, i: nat)
    requires q.key != []
  {
    && i < |q.Rows()| && Selects(c, q.Rows()[i])
    && if Skips(q, c) then q.Rows()[i].used else StartFor(q, c, q.Rows()[i]) <= i
  }

  /** It is found, and the rest of the query accepts it. */
  ghost predicate FindsAll(q: Query, e: seq<Term>, t: Term, i: nat)
    requires q.key != []
  {
    Finds(q, t.cond, i) && SeekAccepts(q.key, e, t.op, q.Rows()[i])
  }

  /** The positions of the rows that the seek plan returns. */
  ghost function SeekRows(q: Query, e: seq<Term>): set<nat>
    requires q.key != []
  {
    set i: nat | i < |q.Rows()| && SeekGives(q, e, i)
  }

  ghost predicate SeekGives(q: Query, e: seq<Term>, i: nat)
    requires q.key != []
  {
    exists k {:trigger SeekList(q.key, e)[k]} :: 0 <= k < |SeekList(q.key, e)| && FindsAll(q, e, SeekList(q.key, e)[k], i)
  }

  /** SEEK_TABLE; limit is that of TOP, if there is one. */
  class SeekTable {
    const q: Query
    const e: seq<Term>
    const limit: Option<nat>
    var result: seq<Record>
    ghost var chosen: set<nat>

    constructor (q: Query, e: seq<Term>, limit: Option<nat>)
      requires q.Valid()
      ensures this.q == q && this.e == e && this.limit == limit && Valid() && chosen == {} && result == []
    {
      this.q, this.e, this.limit := q, e, limit;
      result, chosen := [], {};
      new;
      PickNone(q.Rows(), 0, |q.Rows()|);
    }

    ghost predicate Valid()
      reads this
    {
      q.Valid() && result == Pick(q.Rows(), chosen, 0, |q.Rows()|) && forall i | i in chosen :: i < |q.Rows()|
    }

    /** The limit is not reached yet. */
    predicate Room()
      reads this
    {
      limit.Some? ==> |result| < Cap(limit)
    }

    /** std::lower_bound by key over the result. */
    method LowerBoundKey(p: Record) returns (first: nat)
      requires forall k, l | 0 <= k < l < |result| :: KeyLess(q.key, result[k], result[l])
      ensures first <= |result|
      ensures forall k | 0 <= k < first :: KeyLess(q.key, result[k], p)
      ensures forall k | first <= k < |result| :: !KeyLess(q.key, result[k], p)
    {
      first := 0;
      var count := |result|;
      while count > 0
        invariant 0 <= count && first + count <= |result|
        invariant forall k | 0 <= k < first :: KeyLess(q.key, result[k], p)
        invariant forall k | first + count <= k < |result| :: !KeyLess(q.key, result[k], p)
      {
        var half := count / 2;
        var mid := first + half;
        if KeyLess(q.key, result[mid], p) {
          forall k | 0 <= k <= mid ensures KeyLess(q.key, result[k], p) {
            if k < mid { KeyLessTrans(q.key, result[k], result[mid], p); }
          }
          first, count := mid + 1, count - half - 1;
        } else {
          forall k | mid <= k < |result| ensures !KeyLess(q.key, result[k], p) {
            if k > mid && KeyLess(q.key, result[k], p) { KeyLessTrans(q.key, result[mid], result[k], p); }
          }
          count := half;
        }
      }
    }

    /** push_unique: the result stays in key order, without repetition. */
    method PushUnique(p: Record, ghost i: nat) returns (pushed: bool)
      requires Valid() && i < |q.Rows()| && p == q.Rows()[i]
      modifies this
      ensures Valid() && chosen == old(chosen) + {i}
      ensures pushed <==> i !in old(chosen)
      ensures |result| == |old(result)| + if pushed then 1 else 0
    {
      hide Pick, KeyLess, Query.Valid, Flat, Sorted, SameKey;
      q.RowsSorted();
      ghost var rows := q.Rows();
      ghost var a, b := Pick(rows, chosen, 0, i), Pick(rows, chosen, i + 1, |rows|);
      PickSplit(q.key, rows, chosen, i);
      PickMore(rows, chosen, i);
      KeyLessTotal(q.key, p, p);
      chosen := chosen + {i};
      if i in old(chosen) { assert old(chosen) + {i} == old(chosen); }
      if result != [] {
        if !KeyLess(q.key, result[|result| - 1], p) {
          ResultSorted(q.key, rows, old(chosen), result);
          var pos := LowerBoundKey(p);
          WherePut(q.key, a, b, rows[i], i in old(chosen), result, pos);
          if pos < |result| {
            if SameKey(q.key, result[pos], p) {
              return false;
            }
            result := result[..pos] + [p] + result[pos..];
            return true;
          }
        } else {
          AtEnd(q.key, a, b, rows[i], i in old(chosen), result);
        }
      }
      result := result + [p];
      return true;
    }

    // ---- the loops over the rows ----

    /** The rows among lo..hi that pass the rest of the query. */
    ghost function Accepted(op: Op, lo: nat, hi: nat): set<nat>
      requires hi <= |q.Rows()|
    {
      set i: nat | lo <= i < hi && SeekAccepts(q.key, e, op, q.Rows()[i])
    }

    /** The rows from a position on that satisfy a predicate and the rest of the query; only those in use, if live. */
    ghost function Found(want: Record -> bool, from: nat, live: bool, op: Op): set<nat> {
      set i: nat | from <= i < |q.Rows()| && want(q.Rows()[i]) && (live ==> q.Rows()[i].used) && SeekAccepts(q.key, e, op, q.Rows()[i])
    }

    /** The callback of seek_with_index; false is break. */
    method Fun(p: Record, op: Op, ghost i: nat) returns (more: bool)
      requires Valid() && Room() && i < |q.Rows()| && p == q.Rows()[i]
      modifies this
      ensures Valid() && chosen == old(chosen) + Accepted(op, i, i + 1)
      ensures if more then Room() else limit.Some? && |result| == Cap(limit)
    {
      hide Pick, KeyLess;
      if SeekAccepts(q.key, e, op, p) {
        var pushed := PushUnique(p, i);
        assert Accepted(op, i, i + 1) == {i};
        if pushed && limit.Some? && limit.value <= |result| {
          return false;
        }
      } else {
        assert Accepted(op, i, i + 1) == {};
      }
      return true;
    }

    /** scan_next: calls back for the rows from a position on, as long as they satisfy a predicate. */
    method ScanFrom(page0: nat, slot0: nat, want: Record -> bool, op: Op) returns (more: bool, ghost end: nat)
      requires Valid() && Room() && page0 <= |q.pages| && if page0 < |q.pages| then slot0 <= |q.pages[page0]| else slot0 == 0
      modifies this
      ensures Valid() && Offset(q.pages, page0) + slot0 <= end <= |q.Rows()|
      ensures forall i | Offset(q.pages, page0) + slot0 <= i < end :: want(q.Rows()[i])
      ensures chosen == old(chosen) + Accepted(op, Offset(q.pages, page0) + slot0, end)
      ensures more ==> end == |q.Rows()| || !want(q.Rows()[end])
      ensures if more then Room() else limit.Some? && |result| == Cap(limit)
    {
      hide Pick, KeyLess, Query.Valid, SeekAccepts, Sorted, Flat, Accepted;
      var page, slot := page0, slot0;
      ghost var start := Offset(q.pages, page0) + slot0;
      end := start;
      FlatPrefix(q.pages, page0);
      if page0 < |q.pages| { FlatPage(q.pages, page0); }
      NothingAccepted(op, start);
      while page < |q.pages|
        invariant page <= |q.pages| && 0 <= slot && if page < |q.pages| then slot <= |q.pages[page]| else slot == 0
        invariant start <= end == Offset(q.pages, page) + slot <= |q.Rows()|
        invariant Valid() && Room() && chosen == old(chosen) + Accepted(op, start, end)
        invariant forall i | start <= i < end :: want(q.Rows()[i])
        decreases |q.pages| - page
      {
        FlatPage(q.pages, page);
        while slot < |q.pages[page]|
          invariant 0 <= slot <= |q.pages[page]| && start <= end == Offset(q.pages, page) + slot
          invariant Valid() && Room() && chosen == old(chosen) + Accepted(op, start, end)
          invariant forall i | start <= i < end :: want(q.Rows()[i])
        {
          var p := q.pages[page][slot];
          if !want(p) {
            return true, end;
          }
          more := Fun(p, op, end);
          AcceptedNext(op, start, end);
          end := end + 1;
          if !more {
            return false, end;
          }
          slot := slot + 1;
        }
        page, slot := page + 1, 0;
      }
      assert q.pages[..page] == q.pages;
      return true, end;
    }

    lemma NothingAccepted(op: Op, start: nat)
      requires start <= |q.Rows()|
      ensures Accepted(op, start, start) == {}
    {
    }

    lemma AcceptedNext(op: Op, start: nat, end: nat)
      requires start <= end < |q.Rows()|
      ensures Accepted(op, start, end + 1) == Accepted(op, start, end) + Accepted(op, end, end + 1)
    {
    }

    /** The rows in use before a position that pass the rest of the query. */
    ghost function AcceptedUsed(op: Op, hi: nat): set<nat>
      requires hi <= |q.Rows()|
    {
      set i: nat | i < hi && q.Rows()[i].used && SeekAccepts(q.key, e, op, q.Rows()[i])
    }

    lemma UsedNext(op: Op, end: nat)
      requires end < |q.Rows()|
      ensures AcceptedUsed(op, 0) == {}
      ensures AcceptedUsed(op, end + 1) == AcceptedUsed(op, end) + if q.Rows()[end].used then Accepted(op, end, end + 1) else {}
    {
      hide SeekAccepts;
    }

    lemma NoneUsed(op: Op)
      ensures AcceptedUsed(op, 0) == {}
    {
    }

    /** make_query::scan_if: calls back for the rows in use from the start of the table, as long as they satisfy a predicate. */
    method ScanUsed(want: Record -> bool, op: Op) returns (more: bool, ghost end: nat)
      requires Valid() && Room()
      modifies this
      ensures Valid() && end <= |q.Rows()|
      ensures forall i | 0 <= i < end && q.Rows()[i].used :: want(q.Rows()[i])
      ensures chosen == old(chosen) + AcceptedUsed(op, end)
      ensures more ==> end == |q.Rows()| || (q.Rows()[end].used && !want(q.Rows()[end]))
      ensures if more then Room() else limit.Some? && |result| == Cap(limit)
    {
      hide Pick, KeyLess, Query.Valid, SeekAccepts, Sorted, Flat, Accepted, AcceptedUsed;
      var page := 0;
      end := 0;
      OffsetZero(q.pages);
      NoneUsed(op);
      while page < |q.pages|
        invariant page <= |q.pages| && end == Offset(q.pages, page) <= |q.Rows()|
        invariant Valid() && Room() && chosen == old(chosen) + AcceptedUsed(op, end)
        invariant forall i | 0 <= i < end && q.Rows()[i].used :: want(q.Rows()[i])
      {
        FlatPage(q.pages, page);
        var slot := 0;
        while slot < |q.pages[page]|
          invariant 0 <= slot <= |q.pages[page]| && end == Offset(q.pages, page) + slot
          invariant Valid() && Room() && chosen == old(chosen) + AcceptedUsed(op, end)
          invariant forall i | 0 <= i < end && q.Rows()[i].used :: want(q.Rows()[i])
        {
          var p := q.pages[page][slot];
          UsedNext(op, end);
          if p.used {
            if !want(p) {
              return true, end;
            }
            more := Fun(p, op, end);
            end := end + 1;
            if !more {
              return false, end;
            }
          } else {
            end := end + 1;
          }
          slot := slot + 1;
        }
        page := page + 1;
      }
      assert q.pages[..page] == q.pages;
      return true, end;
    }

    // ---- the seeks of the key conditions ----

    /** What a seek leaves: all rows it finds, or as many of them as the limit allows. */
    ghost predicate Progress(was: set<nat>, found: set<nat>, more: bool)
      reads this
    {
      && (if more then Room() else limit.Some? && |result| == Cap(limit))
      && was <= chosen <= was + found && (more ==> chosen == was + found)
    }

    lemma RangeFound(want: Record -> bool, op: Op, from: nat, lo: nat, hi: nat)
      requires from <= lo <= hi <= |q.Rows()| && forall i: nat | lo <= i < hi :: want(q.Rows()[i])
      ensures Accepted(op, lo, hi) <= Found(want, from, false, op)
      ensures (forall i: nat | from <= i < |q.Rows()| && want(q.Rows()[i]) :: lo <= i < hi) ==>
                Accepted(op, lo, hi) == Found(want, from, false, op)
    {
      hide SeekAccepts;
    }

    lemma UsedFound(want: Record -> bool, op: Op, hi: nat)
      requires hi <= |q.Rows()| && forall i: nat | i < hi && q.Rows()[i].used :: want(q.Rows()[i])
      ensures AcceptedUsed(op, hi) <= Found(want, 0, true, op)
      ensures (forall i: nat | i < |q.Rows()| && want(q.Rows()[i]) && q.Rows()[i].used :: i < hi) ==>
                AcceptedUsed(op, hi) == Found(want, 0, true, op)
    {
      hide SeekAccepts;
    }

    lemma NothingFound(want: Record -> bool, from: nat, live: bool, op: Op)
      requires forall i: nat | from <= i < |q.Rows()| && want(q.Rows()[i]) :: live && !q.Rows()[i].used
      ensures Found(want, from, live, op) == {}
    {
    }

    /** scan_less: the rows in use from the start of the table on, up to v in key order. */
    method ScanBefore(v: int, orEqual: bool, op: Op) returns (more: bool)
      requires Valid() && Room()
      modifies this
      ensures Valid() && Progress(old(chosen), Found(UpTo(q.key, v, orEqual), 0, true, op), more)
    {
      hide Pick, KeyLess, SeekAccepts, Flat, AcceptedUsed, Found;
      var want := UpTo(q.key, v, orEqual);
      ghost var end;
      more, end := ScanUsed(want, op);
      if more {
        forall i: nat | i < |q.Rows()| && want(q.Rows()[i]) ensures i < end {
          if end <= i { q.Monotone(end, i, v); }
        }
      }
      UsedFound(want, op, end);
    }

    /** scan_greater: all rows after v in key order, wherever the search has started. */
    method ScanAfter(v: int, op: Op) returns (more: bool)
      requires Valid() && Room()
      modifies this
      ensures Valid() && Progress(old(chosen), Found(After(q.key, v), 0, false, op), more)
    {
      hide Pick, KeyLess, SeekAccepts, Flat, Accepted, Found, Query.RootOk, Query.StartsRight, Query.StartOf, IndexTrees.NoneAfter;
      var want := After(q.key, v);
      var key := q.key;
      NoneSooner(v);
      var found, equal := q.LowerBound(v);
      if found.Some? {
        ghost var first := q.At(found.value);
        forall i: nat | first <= i < |q.Rows()| ensures !Before(key, q.Rows()[i], v) { q.Monotone(first, i, v); }
        if equal {
          found := q.ScanNext(found.value, p => Val(p, key[0].col) == v);
        }
        if found.Some? {
          ghost var start := q.At(found.value);
          q.RowAt(found.value);
          forall i: nat | start <= i < |q.Rows()| ensures want(q.Rows()[i]) { q.Monotone(start, i, v); }
          ghost var end;
          more, end := ScanFrom(found.value.page, found.value.slot, p => true, op);
          RangeFound(want, op, 0, start, end);
          return;
        }
      }
      NothingFound(want, 0, false, op);
      return true;
    }

    /** No row before the start of a search comes after the value. */
    lemma NoneSooner(v: int)
      requires q.Valid()
      ensures forall i: nat | i < q.StartOf(v) && i < |q.Rows()| :: !After(q.key, v)(q.Rows()[i])
    {
      q.StartFacts(v);
      hide Flat, KeyLess;
      assert forall p :: IndexTrees.AfterValue(q.key, v)(p) == After(q.key, v)(p);
    }

    /** scan_greater_eq: the rows from v on in key order, from the start of the search on. */
    method ScanAfterEq(v: int, op: Op) returns (more: bool)
      requires Valid() && Room()
      modifies this
      ensures Valid() && Progress(old(chosen), Found(NotBefore(q.key, v), q.StartOf(v), false, op), more)
    {
      hide Pick, KeyLess, SeekAccepts, Flat, Accepted, Found, Query.RootOk, Query.StartsRight, Query.StartOf;
      var want := NotBefore(q.key, v);
      var key := q.key;
      var found, equal := q.LowerBound(v);
      if found.Some? {
        ghost var first := q.At(found.value);
        forall i: nat | first <= i < |q.Rows()| ensures want(q.Rows()[i]) { q.Monotone(first, i, v); }
        ghost var end;
        more, end := ScanFrom(found.value.page, found.value.slot, p => true, op);
        RangeFound(want, op, q.StartOf(v), first, end);
      } else {
        NothingFound(want, q.StartOf(v), false, op);
        more := true;
      }
    }

    /** scan_between: the rows from v up to w in key order, from the start of the search for v on. */
    method ScanBetween(v: int, w: int, op: Op) returns (more: bool)
      requires Valid() && Room()
      modifies this
      ensures Valid() && Progress(old(chosen), Found(FromTo(q.key, v, w), q.StartOf(v), false, op), more)
    {
      hide Pick, KeyLess, SeekAccepts, Flat, Accepted, Found, Query.RootOk, Query.StartsRight, Query.StartOf;
      var want := FromTo(q.key, v, w);
      var key := q.key;
      var found, equal := q.LowerBound(v);
      if found.Some? {
        ghost var first := q.At(found.value);
        ghost var end;
        more, end := ScanFrom(found.value.page, found.value.slot, UpTo(key, w, true), op);
        forall i: nat | first <= i < end ensures want(q.Rows()[i]) { q.Monotone(first, i, v); }
        if more {
          forall i: nat | q.StartOf(v) <= i < |q.Rows()| && want(q.Rows()[i]) ensures first <= i < end {
            if end <= i { q.Monotone(end, i, w); }
          }
        }
        RangeFound(want, op, q.StartOf(v), first, end);
      } else {
        NothingFound(want, q.StartOf(v), false, op);
        more := true;
      }
    }

    /** The linear look-up passes over rows that are not in use. */
    predicate LooksUp() { |q.key| == 1 && q.root.DataRoot? }

    /** The rows that a look-up of v finds. */
    ghost function FoundEqual(v: int, op: Op): set<nat>
      requires q.key != []
    {
      if LooksUp() then Found(Equal(q.key, v), 0, true, op) else Found(Equal(q.key, v), q.StartOf(v), false, op)
    }

    /** scan_where: a look-up for a key of one column, else a scan of the rows that share the first column. */
    method ScanWhere(v: int, op: Op) returns (more: bool)
      requires Valid() && Room()
      modifies this
      ensures Valid() && Progress(old(chosen), FoundEqual(v, op), more)
    {
      hide Query.Valid;
      q.KeyNotEmpty();
      if |q.key| == 1 {
        more := LookUp(v, op);
      } else {
        more := ScanEqual(v, op);
      }
    }

    /** scan_or_find for a key of one column. */
    method LookUp(v: int, op: Op) returns (more: bool)
      requires Valid() && Room() && |q.key| == 1
      modifies this
      ensures Valid() && Progress(old(chosen), FoundEqual(v, op), more)
    {
      hide Pick, KeyLess, SeekAccepts, Flat, Accepted, Found, Sorted, Query.RootOk, Query.StartsRight, Query.StartOf, SameKey;
      var found, i := q.FindWithIndex(KeyOf(q.key[0].col, v));
      q.KeyOfValue(v);
      if found.Some? {
        q.OneColumn(v, i);
        OneFound(v, op, i);
        more := Fun(found.value, op, i);
      } else {
        if LooksUp() { NothingFound(Equal(q.key, v), 0, true, op); } else { NothingFound(Equal(q.key, v), q.StartOf(v), false, op); }
        more := true;
      }
    }

    lemma OneFound(v: int, op: Op, i: nat)
      requires q.key != [] && i < |q.Rows()| && Equal(q.key, v)(q.Rows()[i]) && q.StartOf(v) <= i && (LooksUp() ==> q.Rows()[i].used)
      requires forall j | 0 <= j < |q.Rows()| && Equal(q.key, v)(q.Rows()[j]) :: j == i
      ensures Accepted(op, i, i + 1) == FoundEqual(v, op)
    {
      hide SeekAccepts;
    }

    /** scan_or_find for a key of several columns. */
    method ScanEqual(v: int, op: Op) returns (more: bool)
      requires Valid() && Room()
      modifies this
      ensures Valid() && Progress(old(chosen), Found(Equal(q.key, v), q.StartOf(v), false, op), more)
    {
      hide Pick, KeyLess, SeekAccepts, Flat, Accepted, Found, Query.RootOk, Query.StartsRight, Query.StartOf;
      var want := Equal(q.key, v);
      var found, equal := q.LowerBound(v);
      if equal {
        ghost var first := q.At(found.value);
        ghost var end;
        more, end := ScanFrom(found.value.page, found.value.slot, want, op);
        if more {
          forall i: nat | q.StartOf(v) <= i < |q.Rows()| && want(q.Rows()[i]) ensures first <= i < end {
            if end <= i { SameRun(first, end, i, v); }
          }
        }
        RangeFound(want, op, q.StartOf(v), first, end);
      } else {
        forall i: nat | q.StartOf(v) <= i < |q.Rows()| ensures !want(q.Rows()[i]) {
          if found.Some? && q.At(found.value) <= i { q.Monotone(q.At(found.value), i, v); }
        }
        NothingFound(want, q.StartOf(v), false, op);
        more := true;
      }
    }

    /** Equal first columns are next to each other. */
    lemma SameRun(first: nat, end: nat, i: nat, v: int)
      requires q.Valid() && first < end <= i < |q.Rows()| && Val(q.Rows()[first], q.key[0].col) == v
      requires Val(q.Rows()[end], q.key[0].col) != v
      ensures Val(q.Rows()[i], q.key[0].col) != v
    {
      q.Monotone(first, end, v);
      q.Monotone(end, i, v);
    }

    /** The rows that the look-ups of some of the values find. */
    ghost function FoundIn(vs: seq<int>, op: Op): set<nat>
      requires q.key != []
    {
      set i: nat | i < |q.Rows()| && Val(q.Rows()[i], q.key[0].col) in vs && i in FoundEqual(Val(q.Rows()[i], q.key[0].col), op)
    }

    /** scan_if for IN. */
    method ScanIn(vs: seq<int>, op: Op) returns (more: bool)
      requires Valid() && Room()
      modifies this
      ensures Valid() && Progress(old(chosen), FoundIn(vs, op), more)
    {
      hide Pick, KeyLess, SeekAccepts, Accepted, FoundEqual, FoundIn, Query.Valid;
      q.KeyNotEmpty();
      NoneIn(op);
      for n := 0 to |vs|
        invariant Valid() && Progress(old(chosen), FoundIn(vs[..n], op), true)
      {
        InNext(vs, n, op);
        more := ScanWhere(vs[n], op);
        if !more {
          return;
        }
      }
      assert vs[..|vs|] == vs;
      return true;
    }

    lemma NoneIn(op: Op)
      requires q.key != []
      ensures FoundIn([], op) == {}
    {
    }

    lemma InNext(vs: seq<int>, n: nat, op: Op)
      requires n < |vs| && q.key != []
      ensures FoundIn(vs[..n + 1], op) == FoundIn(vs[..n], op) + FoundEqual(vs[n], op)
      ensures FoundIn(vs[..n + 1], op) <= FoundIn(vs, op)
    {
      hide SeekAccepts;
      assert vs[..n + 1] == vs[..n] + [vs[n]];
    }

    /** The rows that a key condition finds. */
    ghost function FoundBy(t: Term): set<nat>
      requires q.key != []
    {
      set i: nat | i < |q.Rows()| && FindsAll(q, e, t, i)
    }

    /** seek_with_index: the loop that belongs to the condition and the direction of the key. */
    method SeekWithIndex(t: Term) returns (more: bool)
      requires Valid() && Room() && IsKey(q.key, t)
      modifies this
      ensures Valid() && Progress(old(chosen), FoundBy(t), more)
    {
      hide Pick, KeyLess, SeekAccepts, Found, FoundEqual, FoundIn, Sorted, FoundBy, Selects, Query.StartOf;
      var key, op := q.key, t.op;
      var asc := key[0].order == ASC;
      FoundSame(t);
      match t.cond
      case Where(_, v) => more := ScanWhere(v, op);
      case In(_, vs) => more := ScanIn(vs, op);
      case Less(_, v) => if asc { more := ScanBefore(v, false, op); } else { more := ScanAfter(v, op); }
      case LessEq(_, v) => if asc { more := ScanBefore(v, true, op); } else { more := ScanAfterEq(v, op); }
      case Greater(_, v) => if asc { more := ScanAfter(v, op); } else { more := ScanBefore(v, false, op); }
      case GreaterEq(_, v) => if asc { more := ScanAfterEq(v, op); } else { more := ScanBefore(v, true, op); }
      case Between(_, lo, hi) => if asc { more := ScanBetween(lo, hi, op); } else { more := ScanBetween(hi, lo, op); }
    }

    /** The rows that the loop of a condition finds. */
    ghost function LoopFinds(c: Cond, op: Op): set<nat>
      requires q.key != []
    {
      var asc := q.key[0].order == ASC;
      match c
      case Where(_, v) => FoundEqual(v, op)
      case In(_, vs) => FoundIn(vs, op)
      case Less(_, v) => if asc then Found(UpTo(q.key, v, false), 0, true, op) else Found(After(q.key, v), 0, false, op)
      case LessEq(_, v) => if asc then Found(UpTo(q.key, v, true), 0, true, op) else Found(NotBefore(q.key, v), q.StartOf(v), false, op)
      case Greater(_, v) => if asc then Found(After(q.key, v), 0, false, op) else Found(UpTo(q.key, v, false), 0, true, op)
      case GreaterEq(_, v) => if asc then Found(NotBefore(q.key, v), q.StartOf(v), false, op) else Found(UpTo(q.key, v, true), 0, true, op)
      case Between(_, lo, hi) =>
        if asc then Found(FromTo(q.key, lo, hi), q.StartOf(lo), false, op) else Found(FromTo(q.key, hi, lo), q.StartOf(hi), false, op)
      case _ => {}
    }

    lemma FoundSame(t: Term)
      requires IsKey(q.key, t)
      ensures FoundBy(t) == LoopFinds(t.cond, t.op)
    {
      hide SeekAccepts, Query.StartOf;
      forall i: nat ensures i in FoundBy(t) <==> i in LoopFinds(t.cond, t.op) {
        FoundSameAt(t, i);
      }
    }

    lemma FoundSameAt(t: Term, i: nat)
      requires IsKey(q.key, t)
      ensures i in FoundBy(t) <==> i in LoopFinds(t.cond, t.op)
    {
      hide SeekAccepts, Query.StartOf;
    }

    /** The rows that some of the key conditions select. */
    ghost function FoundByAny(ts: seq<Term>): set<nat>
      requires q.key != []
    {
      set i: nat | i < |q.Rows()| && FoundBySome(ts, i)
    }

    ghost predicate FoundBySome(ts: seq<Term>, i: nat)
      requires q.key != []
    {
      exists k {:trigger ts[k]} :: 0 <= k < |ts| && i in FoundBy(ts[k])
    }

    lemma AnyNext(ts: seq<Term>, n: nat)
      requires n < |ts| && q.key != []
      ensures FoundByAny(ts[..n + 1]) == FoundByAny(ts[..n]) + FoundBy(ts[n])
      ensures FoundByAny(ts[..n + 1]) <= FoundByAny(ts)
    {
      assert ts[..n + 1] == ts[..n] + [ts[n]];
      forall i: nat ensures i in FoundByAny(ts[..n + 1]) <==> i in FoundByAny(ts[..n]) || i in FoundBy(ts[n]) {
        AnyNextAt(ts, n, i);
      }
    }

    lemma AnyNextAt(ts: seq<Term>, n: nat, i: nat)
      requires n < |ts| && q.key != []
      ensures i in FoundByAny(ts[..n + 1]) <==> i in FoundByAny(ts[..n]) || i in FoundBy(ts[n])
      ensures i in FoundByAny(ts[..n + 1]) ==> i in FoundByAny(ts)
    {
      hide SeekAccepts;
      var a, b := ts[..n + 1], ts[..n];
      assert forall k | 0 <= k < n :: a[k] == b[k] == ts[k];
      assert a[n] == ts[n];
      if i in FoundByAny(b) {
        var k :| 0 <= k < n && i in FoundBy(b[k]);
        assert i in FoundBy(a[k]);
      }
      if i in FoundByAny(a) {
        var k :| 0 <= k < n + 1 && i in FoundBy(a[k]);
        assert i in FoundBy(ts[k]);
      }
    }

    /** select: the key conditions one after the other. Without a limit the result has exactly the rows that the seek
        gives, in key order; with a limit it has as many of these rows as the limit allows. */
    method Select()
      requires Valid() && chosen == {}
      modifies this
      ensures Valid() && chosen <= SeekRows(q, e)
      ensures limit.None? || |result| < Cap(limit) ==> chosen == SeekRows(q, e)
      ensures limit.Some? ==> |result| == Min(Cap(limit), |Pick(q.Rows(), SeekRows(q, e), 0, |q.Rows()|)|)
    {
      hide Pick, KeyLess, SeekAccepts, Found, FoundBy, FoundByAny, Sorted, SeekRows, Query.Valid;
      q.KeyNotEmpty();
      var ts := SeekList(q.key, e);
      var k := 0;
      var more := true;
      PickNone(q.Rows(), 0, |q.Rows()|);
      NothingPicked();
      AllFound();
      while k < |ts| && more
        invariant 0 <= k <= |ts| && Valid() && (more ==> Room() && chosen == FoundByAny(ts[..k]))
        invariant !more ==> limit.Some? && |result| == Cap(limit) && chosen <= FoundByAny(ts)
      {
        AnyNext(ts, k);
        more := SeekWithIndex(ts[k]);
        k := k + 1;
      }
      if more { assert ts[..k] == ts; }
      PickAtMost(q.Rows(), chosen, SeekRows(q, e), |q.Rows()|);
    }

    /** The rows found are those that the seek gives, and every condition of the list is one for the index. */
    lemma AllFound()
      requires q.key != []
      ensures forall k | 0 <= k < |SeekList(q.key, e)| :: IsKey(q.key, SeekList(q.key, e)[k])
      ensures FoundByAny(SeekList(q.key, e)) == SeekRows(q, e)
    {
      var ts := SeekList(q.key, e);
      forall k | 0 <= k < |ts| ensures IsKey(q.key, ts[k]) {
        TermsOnly(q.key, e, Key, if Terms(q.key, e, Key, AND) == [] then OR else AND, k);
      }
      hide SeekAccepts, FindsAll, SeekList;
    }

    lemma NothingPicked()
      requires q.key != []
      ensures FoundByAny([]) == {}
    {
    }
  }

  function UpTo(key: seq<KeyCol>, v: int, orEqual: bool): Record -> bool
    requires key != []
  {
    p => Before(key, p, v) || (orEqual && Val(p, key[0].col) == v)
  }

  function After(key: seq<KeyCol>, v: int): Record -> bool
    requires key != []
  {
    p => ColLess(key[0].order, v, Val(p, key[0].col))
  }

  function NotBefore(key: seq<KeyCol>, v: int): Record -> bool
    requires key != []
  {
    p => !Before(key, p, v)
  }

  function FromTo(key: seq<KeyCol>, v: int, w: int): Record -> bool
    requires key != []
  {
    p => !Before(key, p, v) && (Before(key, p, w) || Val(p, key[0].col) == w)
  }

  function Equal(key: seq<KeyCol>, v: int): Record -> bool
    requires key != []
  {
    p => Val(p, key[0].col) == v
  }

  lemma {:induction false} PickNone(rows: seq<Record>, lo: nat, hi: nat)
    requires lo <= hi <= |rows|
    ensures Pick(rows, {}, lo, hi) == []
    decreases hi - lo
  {
    if lo < hi { PickNone(rows, lo, hi - 1); }
  }

  /** A result that is picked from sorted rows is sorted. */
  lemma ResultSorted(key: seq<KeyCol>, rows: seq<Record>, chosen: set<nat>, result: seq<Record>)
    requires Sorted(key, rows) && result == Pick(rows, chosen, 0, |rows|)
    ensures forall k, l | 0 <= k < l < |result| :: KeyLess(key, result[k], result[l])
  {
    PickSorted(key, rows, chosen, |rows|);
  }

  lemma {:induction false} PickSorted(key: seq<KeyCol>, rows: seq<Record>, chosen: set<nat>, hi: nat)
    requires Sorted(key, rows) && hi <= |rows|
    ensures Sorted(key, Pick(rows, chosen, 0, hi))
  {
    if hi > 0 {
      PickSorted(key, rows, chosen, hi - 1);
      var r, s := Pick(rows, chosen, 0, hi - 1), Pick(rows, chosen, 0, hi);
      forall k, l | 0 <= k < l < |s| ensures KeyLess(key, s[k], s[l]) {
        if l < |r| {
          assert s[k] == r[k] && s[l] == r[l] && KeyLess(key, r[k], r[l]);
        } else {
          var i := PickFrom(rows, chosen, 0, hi - 1, k);
          assert s[k] == rows[i] && s[l] == rows[hi - 1] && KeyLess(key, rows[i], rows[hi - 1]);
        }
      }
    }
  }

  /** Where a binary search by key ends up among the rows before and after p. */
  lemma WherePut(key: seq<KeyCol>, a: seq<Record>, b: seq<Record>, p: Record, there: bool, result: seq<Record>, pos: nat)
    requires result == a + (if there then [p] else []) + b
    requires (forall k | 0 <= k < |a| :: KeyLess(key, a[k], p)) && (forall k | 0 <= k < |b| :: KeyLess(key, p, b[k]))
    requires pos <= |result| && (forall k | 0 <= k < pos :: KeyLess(key, result[k], p))
    requires forall k | pos <= k < |result| :: !KeyLess(key, result[k], p)
    ensures pos == |a| && (there ==> pos < |result| && result[pos] == p && SameKey(key, result[pos], p))
    ensures !there ==> result[..pos] == a && result[pos..] == b && (pos < |result| ==> !SameKey(key, result[pos], p))
  {
    KeyLessTotal(key, p, p);
    assert forall k | 0 <= k < |a| :: result[k] == a[k] && KeyLess(key, result[k], p);
    var at := if pos < |result| then result[pos] else p;
    if there {
      assert result[|a|] == p;
    } else if |b| > 0 {
      assert result[|a|] == b[0];
      KeyLessTotal(key, p, b[0]);
    }
  }

  lemma AtEnd(key: seq<KeyCol>, a: seq<Record>, b: seq<Record>, p: Record, there: bool, result: seq<Record>)
    requires result == a + (if there then [p] else []) + b && result != []
    requires forall k | 0 <= k < |b| :: KeyLess(key, p, b[k])
    requires KeyLess(key, result[|result| - 1], p)
    ensures !there && b == []
  {
    KeyLessTotal(key, p, p);
    if b != [] {
      assert result[|result| - 1] == b[|b| - 1];
      KeyLessTotal(key, p, b[|b| - 1]);
    }
  }
}
