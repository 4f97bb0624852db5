/** The index pages of a clustered table, and the search for a data page in them (index_tree_t.hpp). */
module IndexTrees {
  import opened Wrappers
  import opened Queries
  import opened KeyOrders

  /** A data page, or an index page: its rows hold a key and the page below. */
  datatype Node = Leaf(page: nat) | Index(rows: seq<Entry>)
  datatype Entry = Entry(key: Record, child: Node)

  /** The rows before position n are less than the key, and the others are not. */
  ghost predicate Separates(order: seq<KeyCol>, rows: seq<Record>, k: Record, n: nat) {
    && (forall j | 0 <= j < n && j < |rows| :: KeyLess(order, rows[j], k))
    && (forall j: nat | n <= j < |rows| :: !KeyLess(order, rows[j], k))
  }

  /** The keys of an index page ascend; the first one of the leftmost page of a level is null, which is less than all. */
  ghost predicate Ascends(order: seq<KeyCol>, es: seq<Entry>, leftmost: bool) {
    forall i, j | (if leftmost then 1 else 0) <= i < j < |es| :: KeyLess(order, es[i].key, es[j].key)
  }

  /** Below the node are the data pages from lo to hi, in order, and every key that is not null separates the data pages
      before its child from the others. */
  ghost predicate TreeOk(order: seq<KeyCol>, pages: seq<seq<Record>>, n: Node, lo: nat, hi: nat, leftmost: bool)
    decreases n
  {
    match n
    case Leaf(page) => page == lo < |pages| && hi == lo + 1
    case Index(es) =>
      && es != [] && Ascends(order, es, leftmost)
      && exists b: seq<nat> :: |b| == |es| + 1 && BoundsOk(order, pages, es, lo, hi, leftmost, b)
           && forall i | 0 <= i < |es| :: TreeOk(order, pages, es[i].child, b[i], b[i + 1], leftmost && i == 0)
  }

  /** Child i has the data pages from b[i] to b[i + 1]. */
  ghost predicate BoundsOk(order: seq<KeyCol>, pages: seq<seq<Record>>, es: seq<Entry>, lo: nat, hi: nat, leftmost: bool, b: seq<nat>) {
    && |b| == |es| + 1 && b[0] == lo && b[|es|] == hi <= |pages|
    && (forall i | 0 <= i < |es| :: b[i] < |pages|)
    && (forall i | 0 <= i < |es| && !(leftmost && i == 0) :: Separates(order, Flat(pages), es[i].key, Offset(pages, b[i])))
  }

  // ---- the search on one index page ----

  /** Is entry i less? A null key is. */
  predicate IsLess(es: seq<Entry>, leftmost: bool, less: Record -> bool, i: nat)
    requires i < |es|
  {
    (leftmost && i == 0) || less(es[i].key)
  }

  /** How many entries are less, before the first that is not. */
  function CountLess(es: seq<Entry>, leftmost: bool, less: Record -> bool): (f: nat)
    ensures f <= |es|
  {
    if es == [] || !(leftmost || less(es[0].key)) then 0 else 1 + CountLess(es[1..], false, less)
  }

  lemma {:induction false} CountMeans(es: seq<Entry>, leftmost: bool, less: Record -> bool)
    ensures var f := CountLess(es, leftmost, less);
      (forall i: nat | i < f :: IsLess(es, leftmost, less, i)) && (f < |es| ==> !IsLess(es, leftmost, less, f))
  {
    var f := CountLess(es, leftmost, less);
    if f > 0 {
      CountMeans(es[1..], false, less);
      forall i: nat | i < f ensures IsLess(es, leftmost, less, i) {
        if i > 0 { assert IsLess(es[1..], false, less, i - 1); }
      }
      if f < |es| { assert !IsLess(es[1..], false, less, f - 1); }
    }
  }

  /** find_slot and first_slot: the last entry that is not greater than what is searched for, or the first one. */
  function Slot(es: seq<Entry>, leftmost: bool, less: Record -> bool, greater: Record -> bool): (i: nat)
    requires es != []
    ensures i < |es|
  {
    var f := CountLess(es, leftmost, less);
    if f < |es| then if f > 0 && greater(es[f].key) then f - 1 else f else f - 1
  }

  /** Entries that are less come before those that are not. */
  ghost predicate LessFirst(es: seq<Entry>, leftmost: bool, less: Record -> bool) {
    forall i, j | (if leftmost then 1 else 0) <= i < j < |es| && less(es[j].key) :: less(es[i].key)
  }

  lemma CountIs(es: seq<Entry>, leftmost: bool, less: Record -> bool, f: nat)
    requires f <= |es| && (forall i: nat | i < f :: IsLess(es, leftmost, less, i))
    requires f < |es| ==> !IsLess(es, leftmost, less, f)
    ensures CountLess(es, leftmost, less) == f
  {
    CountMeans(es, leftmost, less);
  }

  method FindSlot(es: seq<Entry>, leftmost: bool, less: Record -> bool, greater: Record -> bool) returns (i: nat)
    requires es != [] && LessFirst(es, leftmost, less)
    ensures i == Slot(es, leftmost, less, greater)
  {
    var first: nat, count: nat := 0, |es|;
    while count > 0
      invariant first + count <= |es|
      invariant forall k: nat | k < first :: IsLess(es, leftmost, less, k)
      invariant forall k: nat | first + count <= k < |es| :: !IsLess(es, leftmost, less, k)
    {
      var half := count / 2;
      var mid := first + half;
      if IsLess(es, leftmost, less, mid) {
        first, count := mid + 1, count - half - 1;
      } else {
        count := half;
      }
    }
    CountIs(es, leftmost, less, first);
    if first < |es| {
      return if first > 0 && greater(es[first].key) then first - 1 else first;
    }
    return first - 1;
  }

  // ---- the way down ----

  function Descend(n: Node, leftmost: bool, less: Record -> bool, greater: Record -> bool): nat
    decreases n
  {
    match n
    case Leaf(page) => page
    case Index(es) =>
      if es == [] then 0
      else
        var i := Slot(es, leftmost, less, greater);
        Descend(es[i].child, leftmost && i == 0, less, greater)
  }

  /** What the search for a whole key, or for a value of the first column, compares. */
  function LessThan(order: seq<KeyCol>, m: Record): Record -> bool { p => KeyLess(order, p, m) }
  function MoreThan(order: seq<KeyCol>, m: Record): Record -> bool { p => KeyLess(order, m, p) }

  function BeforeValue(order: seq<KeyCol>, v: int): Record -> bool
    requires order != []
  {
    p => Before(order, p, v)
  }

  function AfterValue(order: seq<KeyCol>, v: int): Record -> bool
    requires order != []
  {
    p => ColLess(order[0].order, v, Val(p, order[0].col))
  }

  /** Whatever is less than something less is less. */
  ghost predicate Downward(order: seq<KeyCol>, less: Record -> bool) {
    forall p, q | KeyLess(order, p, q) && less(q) :: less(p)
  }

  method FindLeaf(order: seq<KeyCol>, pages: seq<seq<Record>>, root: Node, less: Record -> bool, greater: Record -> bool)
    returns (page: nat)
    requires TreeOk(order, pages, root, 0, |pages|, true) && Downward(order, less)
    ensures page == Descend(root, true, less, greater)
  {
    hide BoundsOk, Slot, KeyLess;
    var n, leftmost := root, true;
    ghost var lo: nat, hi: nat := 0, |pages|;
    while n.Index?
      invariant TreeOk(order, pages, n, lo, hi, leftmost)
      invariant Descend(n, leftmost, less, greater) == Descend(root, true, less, greater)
      decreases n
    {
      var i := FindSlot(n.rows, leftmost, less, greater);
      ghost var b: seq<nat> :| |b| == |n.rows| + 1 && BoundsOk(order, pages, n.rows, lo, hi, leftmost, b)
        && forall j | 0 <= j < |n.rows| :: TreeOk(order, pages, n.rows[j].child, b[j], b[j + 1], leftmost && j == 0);
      lo, hi := b[i], b[i + 1];
      n, leftmost := n.rows[i].child, leftmost && i == 0;
    }
    return n.page;
  }

  // ---- find_page ----

  /** The row with key m is among those from position a on and before position b. */
  ghost predicate Among(order: seq<KeyCol>, rows: seq<Record>, m: Record, a: nat, b: nat) {
    forall j | 0 <= j < |rows| && SameKey(order, rows[j], m) :: a <= j < b
  }

  /** find_page: the row with the key, if there is one, is on the data page that is found. */
  lemma {:induction false} FindsKey(order: seq<KeyCol>, pages: seq<seq<Record>>, n: Node, lo: nat, hi: nat, leftmost: bool, m: Record)
    requires TreeOk(order, pages, n, lo, hi, leftmost) && order != [] && hi <= |pages|
    requires lo < |pages| && Among(order, Flat(pages), m, Offset(pages, lo), Offset(pages, hi))
    ensures var p := Descend(n, leftmost, LessThan(order, m), MoreThan(order, m));
      p < |pages| && Among(order, Flat(pages), m, Offset(pages, p), Offset(pages, p + 1))
    decreases n
  {
    hide Among, BoundsOk, Slot, Flat, KeyLess;
    match n
    case Leaf(page) =>
    case Index(es) =>
      var i := Slot(es, leftmost, LessThan(order, m), MoreThan(order, m));
      var b: seq<nat> :| |b| == |es| + 1 && BoundsOk(order, pages, es, lo, hi, leftmost, b)
        && forall j | 0 <= j < |es| :: TreeOk(order, pages, es[j].child, b[j], b[j + 1], leftmost && j == 0);
      SlotHasKey(order, pages, es, lo, hi, leftmost, b, m);
      FindsKey(order, pages, es[i].child, b[i], b[i + 1], leftmost && i == 0, m);
  }

  lemma SlotHasKey(order: seq<KeyCol>, pages: seq<seq<Record>>, es: seq<Entry>, lo: nat, hi: nat, leftmost: bool, b: seq<nat>, m: Record)
    requires es != [] && Ascends(order, es, leftmost) && |b| == |es| + 1 && BoundsOk(order, pages, es, lo, hi, leftmost, b)
    requires hi <= |pages| && lo < |pages| && Among(order, Flat(pages), m, Offset(pages, lo), Offset(pages, hi))
    ensures var i := Slot(es, leftmost, LessThan(order, m), MoreThan(order, m));
      b[i] < |pages| && b[i + 1] <= |pages| && Among(order, Flat(pages), m, Offset(pages, b[i]), Offset(pages, b[i + 1]))
  {
    hide Flat, KeyLess, SameKey, Slot, Separates, Offset, BoundsOk, Ascends;
    var rows := Flat(pages);
    var i := Slot(es, leftmost, LessThan(order, m), MoreThan(order, m));
    SlotOfKey(order, es, leftmost, m);
    BoundsAt(order, pages, es, lo, hi, leftmost, b, i);
    BoundsAt(order, pages, es, lo, hi, leftmost, b, i + 1);
    forall j: nat | j < |rows| && SameKey(order, rows[j], m) ensures Offset(pages, b[i]) <= j < Offset(pages, b[i + 1]) {
      AmongAt(order, rows, m, Offset(pages, lo), Offset(pages, hi), j);
      if !(leftmost && i == 0) { RowAndKey(order, rows, es[i].key, Offset(pages, b[i]), m, j); }
      if i + 1 < |es| { RowAndKey(order, rows, es[i + 1].key, Offset(pages, b[i + 1]), m, j); }
    }
  }

  lemma BoundsAt(order: seq<KeyCol>, pages: seq<seq<Record>>, es: seq<Entry>, lo: nat, hi: nat, leftmost: bool, b: seq<nat>, i: nat)
    requires |b| == |es| + 1 && BoundsOk(order, pages, es, lo, hi, leftmost, b) && i <= |es|
    ensures b[i] <= |pages| && (i == 0 ==> b[i] == lo) && (i == |es| ==> b[i] == hi) && (i < |es| ==> b[i] < |pages|)
    ensures i < |es| && !(leftmost && i == 0) ==> Separates(order, Flat(pages), es[i].key, Offset(pages, b[i]))
  {
    hide Separates, Flat, Offset;
  }

  lemma AmongAt(order: seq<KeyCol>, rows: seq<Record>, m: Record, a: nat, b: nat, j: nat)
    requires Among(order, rows, m, a, b) && j < |rows| && SameKey(order, rows[j], m)
    ensures a <= j < b
  {
  }

  /** On which side of a separator the row with key m is. */
  lemma RowAndKey(order: seq<KeyCol>, rows: seq<Record>, k: Record, n: nat, m: Record, j: nat)
    requires Separates(order, rows, k, n) && j < |rows| && SameKey(order, rows[j], m)
    ensures j < n <==> KeyLess(order, m, k)
  {
    hide KeyLess, SameKey;
    KeyAgainst(order, rows[j], m, k);
  }

  /** The entry chosen is not greater than the key, unless it is the first one, and the next one is greater, unless the
      first one is. */
  lemma SlotOfKey(order: seq<KeyCol>, es: seq<Entry>, leftmost: bool, m: Record)
    requires es != [] && Ascends(order, es, leftmost)
    ensures var i := Slot(es, leftmost, LessThan(order, m), MoreThan(order, m));
      && (i > 0 ==> !KeyLess(order, m, es[i].key))
      && (i + 1 < |es| ==> KeyLess(order, m, es[i + 1].key) || (i == 0 && !leftmost && KeyLess(order, m, es[0].key)))
  {
    var f := CountLess(es, leftmost, LessThan(order, m));
    CountMeans(es, leftmost, LessThan(order, m));
    hide KeyLess;
    if f > 0 {
      assert IsLess(es, leftmost, LessThan(order, m), f - 1);
      KeyLessTotal(order, es[f - 1].key, m);
    }
    if f < |es| {
      KeyLessTotal(order, es[f].key, m);
      if f + 1 < |es| && SameKey(order, es[f].key, m) { KeyAgainst(order, es[f].key, m, es[f + 1].key); }
    }
  }

  /** A row compares like its key. */
  lemma {:induction false} KeyAgainst(order: seq<KeyCol>, p: Record, m: Record, k: Record)
    requires SameKey(order, p, m)
    ensures KeyLess(order, p, k) == KeyLess(order, m, k) && KeyLess(order, k, p) == KeyLess(order, k, m)
  {
    if order != [] {
      assert SameKey(order[1..], p, m) by { assert forall k | 0 <= k < |order[1..]| :: order[1..][k] == order[k + 1]; }
      KeyAgainst(order[1..], p, m, k);
      assert Val(p, order[0].col) == Val(m, order[0].col);
    }
  }

  // ---- first_page ----

  /** The first n rows do not come after the value, or come before it. */
  ghost predicate NoneAfter(order: seq<KeyCol>, rows: seq<Record>, v: int, n: nat)
    requires order != []
  {
    forall j | 0 <= j < n && j < |rows| :: !AfterValue(order, v)(rows[j])
  }

  ghost predicate AllBefore(order: seq<KeyCol>, rows: seq<Record>, v: int, n: nat)
    requires order != []
  {
    forall j | 0 <= j < n && j < |rows| :: Before(order, rows[j], v)
  }

  /** first_page, before it goes back: no row on the data pages before the one that is found comes after the value;
      with a key of one column they all come before it. */
  lemma {:induction false} FindsFirst(order: seq<KeyCol>, pages: seq<seq<Record>>, n: Node, lo: nat, hi: nat, leftmost: bool, v: int)
    requires TreeOk(order, pages, n, lo, hi, leftmost) && order != [] && lo < |pages|
    requires NoneAfter(order, Flat(pages), v, Offset(pages, lo))
    requires |order| == 1 ==> AllBefore(order, Flat(pages), v, Offset(pages, lo))
    ensures var p := Descend(n, leftmost, BeforeValue(order, v), AfterValue(order, v));
      && p < |pages| && NoneAfter(order, Flat(pages), v, Offset(pages, p))
      && (|order| == 1 ==> AllBefore(order, Flat(pages), v, Offset(pages, p)))
    decreases n
  {
    hide NoneAfter, AllBefore, BoundsOk, Slot, Flat, KeyLess, Before;
    match n
    case Leaf(page) =>
    case Index(es) =>
      var i := Slot(es, leftmost, BeforeValue(order, v), AfterValue(order, v));
      var b: seq<nat> :| |b| == |es| + 1 && BoundsOk(order, pages, es, lo, hi, leftmost, b)
        && forall j | 0 <= j < |es| :: TreeOk(order, pages, es[j].child, b[j], b[j + 1], leftmost && j == 0);
      SlotOfValue(order, es, leftmost, v);
      BoundsAt(order, pages, es, lo, hi, leftmost, b, i);
      if i > 0 { RowsBefore(order, Flat(pages), es[i].key, Offset(pages, b[i]), v); }
      FindsFirst(order, pages, es[i].child, b[i], b[i + 1], leftmost && i == 0, v);
  }

  /** The entry chosen does not come after the value, unless it is the first one. */
  lemma SlotOfValue(order: seq<KeyCol>, es: seq<Entry>, leftmost: bool, v: int)
    requires es != [] && order != []
    ensures var i := Slot(es, leftmost, BeforeValue(order, v), AfterValue(order, v));
      i > 0 ==> !AfterValue(order, v)(es[i].key)
  {
    var f := CountLess(es, leftmost, BeforeValue(order, v));
    CountMeans(es, leftmost, BeforeValue(order, v));
    if f > 0 { assert IsLess(es, leftmost, BeforeValue(order, v), f - 1); }
  }

  /** The rows before a separator that does not come after the value. */
  lemma RowsBefore(order: seq<KeyCol>, rows: seq<Record>, k: Record, n: nat, v: int)
    requires order != [] && Separates(order, rows, k, n) && !AfterValue(order, v)(k)
    ensures NoneAfter(order, rows, v, n) && (|order| == 1 ==> AllBefore(order, rows, v, n))
  {
    forall j | 0 <= j < n && j < |rows|
      ensures !AfterValue(order, v)(rows[j]) && (|order| == 1 ==> Before(order, rows[j], v))
    {
      assert KeyLess(order, rows[j], k);
      if |order| == 1 { assert order[1..] == [] && !KeyLess([], rows[j], k); }
    }
  }

  /** The loop that goes back over the pages that end with the value. */
  function GoBack(order: seq<KeyCol>, pages: seq<seq<Record>>, p: nat, v: int): (r: nat)
    requires order != [] && p <= |pages|
    ensures r <= p
  {
    if p > 0 && pages[p - 1] != [] && Val(pages[p - 1][|pages[p - 1]| - 1], order[0].col) == v then GoBack(order, pages, p - 1, v) else p
  }

  /** The data page that the index pages lead to. */
  function StartLeaf(order: seq<KeyCol>, root: Node, v: int): nat
    requires order != []
  {
    Descend(root, true, BeforeValue(order, v), AfterValue(order, v))
  }

  /** first_page: for a key of several columns it goes back. */
  function FirstPageOf(order: seq<KeyCol>, pages: seq<seq<Record>>, root: Node, v: int): nat
    requires order != []
  {
    var p := StartLeaf(order, root, v);
    if |order| > 1 && p <= |pages| then GoBack(order, pages, p, v) else p
  }

  function LastRowBefore(pages: seq<seq<Record>>, e: nat): Option<Record>
    requires e <= |pages|
  {
    if e == 0 then None
    else if pages[e - 1] != [] then Some(pages[e - 1][|pages[e - 1]| - 1])
    else LastRowBefore(pages, e - 1)
  }

  /** Page e has no rows, and the last row before it has the value. */
  predicate GapAt(order: seq<KeyCol>, pages: seq<seq<Record>>, e: nat, v: int)
    requires order != [] && e < |pages|
  {
    pages[e] == [] && LastRowBefore(pages, e).Some? && Val(LastRowBefore(pages, e).value, order[0].col) == v
  }

  /** No such page lies before the one that the index pages lead to. */
  predicate NoGap(order: seq<KeyCol>, pages: seq<seq<Record>>, root: Node, v: int)
    requires order != []
  {
    |order| == 1 || forall e: nat | e < StartLeaf(order, root, v) && e < |pages| :: !GapAt(order, pages, e, v)
  }

  /** For every page without rows, the index pages lead the value of the last row before it there, or to an earlier page. */
  predicate GapsHarmless(order: seq<KeyCol>, pages: seq<seq<Record>>, root: Node)
    requires order != []
  {
    |order| == 1
    || forall e: nat | e < |pages| && pages[e] == [] && LastRowBefore(pages, e).Some? ::
         StartLeaf(order, root, Val(LastRowBefore(pages, e).value, order[0].col)) <= e
  }

  lemma {:induction false} LastRowIs(pages: seq<seq<Record>>, e: nat)
    requires e <= |pages|
    ensures LastRowBefore(pages, e).None? ==> Offset(pages, e) == 0
    ensures LastRowBefore(pages, e).Some? ==>
              0 < Offset(pages, e) <= |Flat(pages)| && Flat(pages)[Offset(pages, e) - 1] == LastRowBefore(pages, e).value
  {
    if e == 0 {
      OffsetZero(pages);
    } else {
      FlatPage(pages, e - 1);
      if pages[e - 1] == [] {
        LastRowIs(pages, e - 1);
      } else {
        var last := |pages[e - 1]| - 1;
        assert Flat(pages)[Offset(pages, e - 1) + last] == pages[e - 1][last];
      }
    }
  }

  /** The page before p has no rows, but the last row before it has the value: the loop stops there. */
  ghost predicate Hole(order: seq<KeyCol>, pages: seq<seq<Record>>, p: nat, v: int)
    requires order != [] && p <= |pages|
  {
    && |order| > 1 && p > 0 && pages[p - 1] == []
    && 0 < Offset(pages, p) <= |Flat(pages)| && Val(Flat(pages)[Offset(pages, p) - 1], order[0].col) == v
  }

  /** The loop does not get past a page without rows. */
  lemma {:induction false} StopsAtGap(order: seq<KeyCol>, pages: seq<seq<Record>>, p: nat, v: int, e: nat)
    requires order != [] && e < p <= |pages| && pages[e] == []
    ensures e < GoBack(order, pages, p, v)
  {
    if e < p - 1 { StopsAtGap(order, pages, p - 1, v, e); }
  }

  lemma {:induction false} OffsetGrows(pages: seq<seq<Record>>, a: nat, b: nat)
    requires a <= b <= |pages|
    ensures Offset(pages, a) <= Offset(pages, b)
    decreases b - a
  {
    if a < b {
      FlatNext(pages, b - 1);
      OffsetGrows(pages, a, b - 1);
    }
  }

  /** Of the rows in key order, all before one that comes before the value do, too. */
  lemma LastBefore(order: seq<KeyCol>, rows: seq<Record>, v: int, n: nat)
    requires order != [] && Sorted(order, rows) && n <= |rows| && NoneAfter(order, rows, v, n)
    ensures AllBefore(order, rows, v, n) <==> n == 0 || Val(rows[n - 1], order[0].col) != v
  {
    if n > 0 && Val(rows[n - 1], order[0].col) != v {
      forall j | 0 <= j < n ensures Before(order, rows[j], v) {
        if j < n - 1 { assert KeyLess(order, rows[j], rows[n - 1]); }
      }
    }
    if n > 0 && Val(rows[n - 1], order[0].col) == v { assert !Before(order, rows[n - 1], v); }
  }

  /** All rows before the page that first_page finds come before the value. */
  ghost predicate RightStart(order: seq<KeyCol>, pages: seq<seq<Record>>, root: Node, v: int)
    requires order != []
  {
    var p := FirstPageOf(order, pages, root, v);
    p < |pages| && AllBefore(order, Flat(pages), v, Offset(pages, p))
  }

  /** first_page finds a page such that all rows before it come before the value, exactly if no gap for the value lies
      before the page that the index pages lead to. */
  lemma FirstPageIff(order: seq<KeyCol>, pages: seq<seq<Record>>, root: Node, v: int)
    requires order != [] && pages != [] && Sorted(order, Flat(pages)) && TreeOk(order, pages, root, 0, |pages|, true)
    ensures RightStart(order, pages, root, v) <==> NoGap(order, pages, root, v)
  {
    hide TreeOk, Flat, Offset, KeyLess, Descend, NoneAfter, Sorted, LastRowBefore, GoBack;
    var d, p := StartLeaf(order, root, v), FirstPageOf(order, pages, root, v);
    StopsIff(order, pages, root, v);
    if Hole(order, pages, p, v) {
      HoleIsGap(order, pages, p, v);
      assert p - 1 < d && GapAt(order, pages, p - 1, v);
    }
    if !NoGap(order, pages, root, v) {
      var e: nat :| e < d && e < |pages| && GapAt(order, pages, e, v);
      StopsAtGap(order, pages, d, v, e);
      OffsetGrows(pages, e, p);
      LastRowIs(pages, e);
      assert !Before(order, Flat(pages)[Offset(pages, e) - 1], v);
    }
  }

  lemma HoleIsGap(order: seq<KeyCol>, pages: seq<seq<Record>>, p: nat, v: int)
    requires order != [] && p <= |pages| && Hole(order, pages, p, v)
    ensures GapAt(order, pages, p - 1, v)
  {
    FlatNext(pages, p - 1);
    LastRowIs(pages, p - 1);
  }

  /** first_page is right for every value exactly if all pages without rows are harmless. */
  lemma FirstPageAlways(order: seq<KeyCol>, pages: seq<seq<Record>>, root: Node)
    requires order != [] && pages != [] && Sorted(order, Flat(pages)) && TreeOk(order, pages, root, 0, |pages|, true)
    ensures (forall v :: RightStart(order, pages, root, v))
              <==> GapsHarmless(order, pages, root)
  {
    hide TreeOk, Flat, Offset, KeyLess, StartLeaf, Sorted, RightStart, LastRowBefore, FirstPageOf;
    forall v ensures RightStart(order, pages, root, v) <==> NoGap(order, pages, root, v) {
      FirstPageIff(order, pages, root, v);
    }
    if forall v :: RightStart(order, pages, root, v) {
      forall e: nat | |order| > 1 && e < |pages| && pages[e] == [] && LastRowBefore(pages, e).Some?
        ensures StartLeaf(order, root, Val(LastRowBefore(pages, e).value, order[0].col)) <= e
      {
        var v := Val(LastRowBefore(pages, e).value, order[0].col);
        assert NoGap(order, pages, root, v);
        assert GapAt(order, pages, e, v);
      }
    }
  }

  /** first_page never starts behind a row that comes after the value. */
  lemma StartsEarly(order: seq<KeyCol>, pages: seq<seq<Record>>, root: Node, v: int)
    requires order != [] && pages != [] && TreeOk(order, pages, root, 0, |pages|, true)
    ensures var p := FirstPageOf(order, pages, root, v);
      p < |pages| && Offset(pages, p) <= |Flat(pages)| && NoneAfter(order, Flat(pages), v, Offset(pages, p))
  {
    hide TreeOk, Flat, Offset, KeyLess, Descend, NoneAfter, AllBefore;
    var d, p := StartLeaf(order, root, v), FirstPageOf(order, pages, root, v);
    NothingBefore(order, pages, v);
    FindsFirst(order, pages, root, 0, |pages|, true, v);
    OffsetGrows(pages, p, d);
    FlatPrefix(pages, p);
    FewerAfter(order, Flat(pages), v, Offset(pages, d), Offset(pages, p));
  }

  /** The loop ends with all rows before the page coming before the value, or at a hole. */
  lemma StopsIff(order: seq<KeyCol>, pages: seq<seq<Record>>, root: Node, v: int)
    requires order != [] && pages != [] && Sorted(order, Flat(pages)) && TreeOk(order, pages, root, 0, |pages|, true)
    ensures var p := FirstPageOf(order, pages, root, v);
      && StartLeaf(order, root, v) < |pages| && p < |pages| && p <= StartLeaf(order, root, v)
      && (AllBefore(order, Flat(pages), v, Offset(pages, p)) <==> !Hole(order, pages, p, v))
  {
    hide TreeOk, Flat, KeyLess, Descend, NoneAfter, Sorted, AllBefore;
    var p := StartLeaf(order, root, v);
    NothingBefore(order, pages, v);
    FindsFirst(order, pages, root, 0, |pages|, true, v);
    if |order| > 1 { BackOk(order, pages, p, v); }
  }

  lemma NothingBefore(order: seq<KeyCol>, pages: seq<seq<Record>>, v: int)
    requires order != []
    ensures Offset(pages, 0) == 0 && NoneAfter(order, Flat(pages), v, 0) && AllBefore(order, Flat(pages), v, 0)
  {
    OffsetZero(pages);
  }

  lemma {:induction false} BackOk(order: seq<KeyCol>, pages: seq<seq<Record>>, p: nat, v: int)
    requires |order| > 1 && p < |pages| && Sorted(order, Flat(pages)) && NoneAfter(order, Flat(pages), v, Offset(pages, p))
    ensures var r := GoBack(order, pages, p, v);
      r < |pages| && (AllBefore(order, Flat(pages), v, Offset(pages, r)) <==> !Hole(order, pages, r, v))
  {
    hide Flat, KeyLess, NoneAfter, Sorted, AllBefore;
    var rows := Flat(pages);
    FlatPrefix(pages, p);
    LastBefore(order, rows, v, Offset(pages, p));
    if p == 0 {
      NothingBefore(order, pages, v);
    } else {
      FlatPage(pages, p - 1);
      if pages[p - 1] != [] {
        var last := |pages[p - 1]| - 1;
        assert rows[Offset(pages, p - 1) + last] == pages[p - 1][last];
        FewerAfter(order, rows, v, Offset(pages, p), Offset(pages, p - 1));
        if Val(pages[p - 1][last], order[0].col) == v { BackOk(order, pages, p - 1, v); }
      }
    }
  }

  lemma FewerAfter(order: seq<KeyCol>, rows: seq<Record>, v: int, n: nat, m: nat)
    requires order != [] && NoneAfter(order, rows, v, n) && m <= n
    ensures NoneAfter(order, rows, v, m)
  {
  }

  lemma SearchesAreDownward(order: seq<KeyCol>, m: Record, v: int)
    requires order != []
    ensures Downward(order, LessThan(order, m)) && Downward(order, BeforeValue(order, v))
  {
    forall p, q | KeyLess(order, p, q) && KeyLess(order, q, m) ensures KeyLess(order, p, m) { KeyLessTrans(order, p, q, m); }
  }

  method FindPage(order: seq<KeyCol>, pages: seq<seq<Record>>, root: Node, m: Record) returns (page: nat)
    requires order != [] && pages != [] && TreeOk(order, pages, root, 0, |pages|, true)
    ensures page < |pages| && Among(order, Flat(pages), m, Offset(pages, page), Offset(pages, page + 1))
  {
    hide TreeOk, KeyLess, Flat, Downward;
    SearchesAreDownward(order, m, 0);
    page := FindLeaf(order, pages, root, LessThan(order, m), MoreThan(order, m));
    AllAmong(order, pages, m);
    FindsKey(order, pages, root, 0, |pages|, true, m);
  }

  lemma AllAmong(order: seq<KeyCol>, pages: seq<seq<Record>>, m: Record)
    ensures Among(order, Flat(pages), m, Offset(pages, 0), Offset(pages, |pages|))
  {
    OffsetZero(pages);
    assert pages[..|pages|] == pages;
  }

  method FirstPage(order: seq<KeyCol>, pages: seq<seq<Record>>, root: Node, v: int) returns (page: nat)
    requires order != [] && pages != [] && Sorted(order, Flat(pages)) && TreeOk(order, pages, root, 0, |pages|, true)
    ensures page == FirstPageOf(order, pages, root, v) < |pages|
    ensures AllBefore(order, Flat(pages), v, Offset(pages, page)) <==> NoGap(order, pages, root, v)
  {
    hide TreeOk, KeyLess, Flat, Downward, Sorted, NoGap, AllBefore, LastRowBefore;
    SearchesAreDownward(order, Record([], {}), v);
    page := FindLeaf(order, pages, root, BeforeValue(order, v), AfterValue(order, v));
    FirstPageIff(order, pages, root, v);
    NothingBefore(order, pages, v);
    FindsFirst(order, pages, root, 0, |pages|, true, v);
    if |order| > 1 {
      while page > 0 && pages[page - 1] != [] && Val(pages[page - 1][|pages[page - 1]| - 1], order[0].col) == v
        invariant page < |pages| && GoBack(order, pages, page, v) == FirstPageOf(order, pages, root, v)
      {
        page := page - 1;
      }
    }
  }

  /** Two rows with 1 in the first column, and an empty page between them: the search for 1 starts at the last page. */
  lemma HoleHidesRow()
    ensures var order := [KeyCol(0, ASC), KeyCol(1, ASC)];
      var p, q, k := Record([1, 1], {}), Record([1, 3], {}), Record([1, 2], {});
      var left, right := Index([Entry(p, Leaf(0)), Entry(k, Leaf(1))]), Index([Entry(q, Leaf(2))]);
      var root := Index([Entry(p, left), Entry(q, right)]);
      var pages := [[p], [], [q]];
      && Sorted(order, Flat(pages)) && TreeOk(order, pages, root, 0, 3, true)
      && FirstPageOf(order, pages, root, 1) == 2 && Flat(pages)[0] == p && !Before(order, p, 1)
      && StartLeaf(order, root, 1) == 2 && GapAt(order, pages, 1, 1)
  {
    var order := [KeyCol(0, ASC), KeyCol(1, ASC)];
    var p, q, k := Record([1, 1], {}), Record([1, 3], {}), Record([1, 2], {});
    var es, fs := [Entry(p, Leaf(0)), Entry(k, Leaf(1))], [Entry(q, Leaf(2))];
    var gs := [Entry(p, Index(es)), Entry(q, Index(fs))];
    var pages := [[p], [], [q]];
    hide Flat, Offset, KeyLess, TreeOk, StartLeaf, GapAt, FirstPageOf;
    HolePages(p, q);
    HoleKeys();
    HoleIsThere(order, p, q);
    HoleTree(order, pages, p, q, k);
    HoleSearch(order, pages, p, q, es, fs);
  }

  lemma HoleIsThere(order: seq<KeyCol>, p: Record, q: Record)
    requires order != [] && order[0] == KeyCol(0, ASC) && Val(p, 0) == 1
    ensures GapAt(order, [[p], [], [q]], 1, 1)
  {
    assert LastRowBefore([[p], [], [q]], 1) == Some(p);
  }

  lemma HoleKeys()
    ensures var order := [KeyCol(0, ASC), KeyCol(1, ASC)]; var p, q, k := Record([1, 1], {}), Record([1, 3], {}), Record([1, 2], {});
      && KeyLess(order, p, k) && KeyLess(order, k, q) && KeyLess(order, p, q)
      && !KeyLess(order, q, k) && !KeyLess(order, q, q) && !KeyLess(order, p, p)
  {
    var order := [KeyCol(0, ASC), KeyCol(1, ASC)];
    assert order[1..] == [KeyCol(1, ASC)] && order[1..][1..] == [];
  }

  lemma HolePages(p: Record, q: Record)
    ensures var pages := [[p], [], [q]];
      && Flat(pages) == [p, q] && Offset(pages, 0) == 0 && Offset(pages, 1) == 1 && Offset(pages, 2) == 1 && Offset(pages, 3) == 2
  {
    var pages := [[p], [], [q]];
    assert pages[..0] == [] && pages[..1] == [[p]] && pages[..2] == [[p], []] && pages[..3] == pages;
    FlatNext(pages, 0);
    FlatNext(pages, 1);
    FlatNext(pages, 2);
  }

  lemma HoleTree(order: seq<KeyCol>, pages: seq<seq<Record>>, p: Record, q: Record, k: Record)
    requires pages == [[p], [], [q]] && Flat(pages) == [p, q]
    requires Offset(pages, 0) == 0 && Offset(pages, 1) == 1 && Offset(pages, 2) == 1 && Offset(pages, 3) == 2
    requires KeyLess(order, p, k) && KeyLess(order, p, q) && !KeyLess(order, q, k) && !KeyLess(order, q, q)
    ensures TreeOk(order, pages, Index([Entry(p, Index([Entry(p, Leaf(0)), Entry(k, Leaf(1))])), Entry(q, Index([Entry(q, Leaf(2))]))]), 0, 3, true)
  {
    hide Flat, KeyLess, Offset, Separates, TreeOk;
    var es, fs := [Entry(p, Leaf(0)), Entry(k, Leaf(1))], [Entry(q, Leaf(2))];
    var gs := [Entry(p, Index(es)), Entry(q, Index(fs))];
    FirstRowBefore(order, p, q, k);
    FirstRowBefore(order, p, q, q);
    LeafOk(order, pages, 0, true);
    LeafOk(order, pages, 1, false);
    LeafOk(order, pages, 2, false);
    IndexOk(order, pages, es, 0, 2, true, [0, 1, 2]);
    IndexOk(order, pages, fs, 2, 3, false, [2, 3]);
    IndexOk(order, pages, gs, 0, 3, true, [0, 2, 3]);
  }

  lemma FirstRowBefore(order: seq<KeyCol>, p: Record, q: Record, k: Record)
    requires KeyLess(order, p, k) && !KeyLess(order, q, k)
    ensures Separates(order, [p, q], k, 1)
  {
    hide KeyLess;
  }

  lemma LeafOk(order: seq<KeyCol>, pages: seq<seq<Record>>, page: nat, leftmost: bool)
    requires page < |pages|
    ensures TreeOk(order, pages, Leaf(page), page, page + 1, leftmost)
  {
  }

  lemma IndexOk(order: seq<KeyCol>, pages: seq<seq<Record>>, es: seq<Entry>, lo: nat, hi: nat, leftmost: bool, b: seq<nat>)
    requires es != [] && Ascends(order, es, leftmost) && |b| == |es| + 1 && BoundsOk(order, pages, es, lo, hi, leftmost, b)
    requires forall i | 0 <= i < |es| :: TreeOk(order, pages, es[i].child, b[i], b[i + 1], leftmost && i == 0)
    ensures TreeOk(order, pages, Index(es), lo, hi, leftmost)
  {
    hide BoundsOk, Ascends;
  }

  lemma HoleSearch(order: seq<KeyCol>, pages: seq<seq<Record>>, p: Record, q: Record, es: seq<Entry>, fs: seq<Entry>)
    requires |order| > 1 && order[0] == KeyCol(0, ASC) && pages == [[p], [], [q]] && Val(p, 0) == Val(q, 0) == 1
    requires fs == [Entry(q, Leaf(2))]
    ensures FirstPageOf(order, pages, Index([Entry(p, Index(es)), Entry(q, Index(fs))]), 1) == 2
    ensures StartLeaf(order, Index([Entry(p, Index(es)), Entry(q, Index(fs))]), 1) == 2
  {
    var gs := [Entry(p, Index(es)), Entry(q, Index(fs))];
    var less, greater := BeforeValue(order, 1), AfterValue(order, 1);
    assert IsLess(gs, true, less, 0) && !IsLess(gs, true, less, 1) && !IsLess(fs, false, less, 0);
    CountIs(gs, true, less, 1);
    CountIs(fs, false, less, 0);
    assert Slot(gs, true, less, greater) == 1 && Slot(fs, false, less, greater) == 0;
    assert Descend(Index(fs), false, less, greater) == 2;
  }
}
