/** ORDER BY, and the whole of VALUES: choosing a plan, sorting and TOP (maketable_select.hpp). */
module QueryResults {
  import opened Wrappers
  import opened Queries
  import opened KeyOrders
  import opened QueryScans
  import opened QueryPlans

  // ---- sorting ----

  /** The rows with value v in a column. */
  ghost function WithValue(s: seq<Record>, col: nat, v: int): seq<Record> {
    Filter(s, p => Val(p, col) == v)
  }

  /** r has the rows of s in the order of one column, and rows with equal values in the order they had. */
  ghost predicate StablySorted(s: seq<Record>, r: seq<Record>, o: KeyCol) {
    && multiset(r) == multiset(s) && ColSorted(r, o)
    && forall v :: WithValue(r, o.col, v) == WithValue(s, o.col, v)
  }

  ghost predicate ColSorted(r: seq<Record>, o: KeyCol) {
    forall i, j | 0 <= i < j < |r| :: !ColLess(o.order, Val(r[j], o.col), Val(r[i], o.col))
  }

  /** No later row is less in the order of the columns. */
  ghost predicate LexSorted(orders: seq<KeyCol>, r: seq<Record>) {
    forall i, j | 0 <= i < j < |r| :: !KeyLess(orders, r[j], r[i])
  }

  lemma {:induction false} FilterConcat(s: seq<Record>, t: seq<Record>, want: Record -> bool)
    ensures Filter(s + t, want) == Filter(s, want) + Filter(t, want)
  {
    if t == [] {
      assert s + t == s;
    } else {
      assert (s + t)[..|s + t| - 1] == s + t[..|t| - 1];
      FilterConcat(s, t[..|t| - 1], want);
    }
  }

  lemma {:induction false} FilterNone(s: seq<Record>, want: Record -> bool)
    requires forall i | 0 <= i < |s| :: !want(s[i])
    ensures Filter(s, want) == []
  {
    if s != [] { FilterNone(s[..|s| - 1], want); }
  }

  /** Where a row of s is in the filtered sequence. */
  lemma FilterAt(s: seq<Record>, want: Record -> bool, i: nat)
    requires i < |s| && want(s[i])
    ensures |Filter(s[..i], want)| < |Filter(s, want)| && Filter(s, want)[|Filter(s[..i], want)|] == s[i]
    ensures |Filter(s[..i + 1], want)| == |Filter(s[..i], want)| + 1
  {
    assert s[..i + 1][..i] == s[..i];
    assert s == s[..i + 1] + s[i + 1..];
    FilterConcat(s[..i + 1], s[i + 1..], want);
  }

  lemma FilterGrows(s: seq<Record>, want: Record -> bool, i: nat, j: nat)
    requires i <= j <= |s|
    ensures |Filter(s[..i], want)| <= |Filter(s[..j], want)|
  {
    assert s[..j] == s[..i] + s[i..j];
    FilterConcat(s[..i], s[i..j], want);
  }

  /** Filtering keeps the order. */
  lemma {:induction false} FilterSorted(orders: seq<KeyCol>, s: seq<Record>, want: Record -> bool)
    requires LexSorted(orders, s)
    ensures LexSorted(orders, Filter(s, want)) && forall k | 0 <= k < |Filter(s, want)| :: Filter(s, want)[k] in s
  {
    if s != [] { FilterSorted(orders, s[..|s| - 1], want); }
  }

  /** A stable sort by the first column keeps the order that the other columns gave. */
  lemma StableLex(orders: seq<KeyCol>, s: seq<Record>, r: seq<Record>)
    requires orders != [] && LexSorted(orders[1..], s) && StablySorted(s, r, orders[0])
    ensures LexSorted(orders, r)
  {
    var o := orders[0];
    forall i, j | 0 <= i < j < |r| ensures !KeyLess(orders, r[j], r[i]) {
      if Val(r[j], o.col) == Val(r[i], o.col) {
        var v := Val(r[i], o.col);
        var want := (p: Record) => Val(p, o.col) == v;
        FilterSorted(orders[1..], s, want);
        assert WithValue(r, o.col, v) == Filter(r, want) && WithValue(s, o.col, v) == Filter(s, want);
        FilterAt(r, want, i);
        FilterAt(r, want, j);
        FilterGrows(r, want, i + 1, j);
      }
    }
  }

  /** std::stable_sort, as an insertion sort. */
  method StableSort(s: seq<Record>, o: KeyCol) returns (r: seq<Record>)
    ensures StablySorted(s, r, o)
  {
    r := [];
    for n := 0 to |s|
      invariant StablySorted(s[..n], r, o)
    {
      var k := 0;
      while k < |r| && !ColLess(o.order, Val(s[n], o.col), Val(r[k], o.col))
        invariant k <= |r|
        invariant forall l | 0 <= l < k :: !ColLess(o.order, Val(s[n], o.col), Val(r[l], o.col))
      {
        k := k + 1;
      }
      assert s[..n + 1] == s[..n] + [s[n]];
      InsertStable(s[..n], r, o, s[n], k);
      r := r[..k] + [s[n]] + r[k..];
    }
    assert s[..|s|] == s;
  }

  lemma InsertStable(s: seq<Record>, r: seq<Record>, o: KeyCol, p: Record, k: nat)
    requires StablySorted(s, r, o) && k <= |r|
    requires forall l | 0 <= l < k :: !ColLess(o.order, Val(p, o.col), Val(r[l], o.col))
    requires k < |r| ==> ColLess(o.order, Val(p, o.col), Val(r[k], o.col))
    ensures StablySorted(s + [p], r[..k] + [p] + r[k..], o)
  {
    var t := r[..k] + [p] + r[k..];
    assert r == r[..k] + r[k..];
    forall l | k <= l < |r| ensures ColLess(o.order, Val(p, o.col), Val(r[l], o.col)) {
      if l > k { assert !ColLess(o.order, Val(r[l], o.col), Val(r[k], o.col)); }
    }
    forall v ensures WithValue(t, o.col, v) == WithValue(s + [p], o.col, v) {
      InsertClass(s, r, o, p, k, v);
    }
    InsertSorted(r, o, p, k);
  }

  lemma InsertSorted(r: seq<Record>, o: KeyCol, p: Record, k: nat)
    requires ColSorted(r, o) && k <= |r|
    requires forall l | 0 <= l < k :: !ColLess(o.order, Val(p, o.col), Val(r[l], o.col))
    requires forall l | k <= l < |r| :: ColLess(o.order, Val(p, o.col), Val(r[l], o.col))
    ensures ColSorted(r[..k] + [p] + r[k..], o)
  {
    var t := r[..k] + [p] + r[k..];
    forall i | 0 <= i < |t| ensures t[i] == if i < k then r[i] else if i == k then p else r[i - 1] {}
  }

  lemma InsertClass(s: seq<Record>, r: seq<Record>, o: KeyCol, p: Record, k: nat, v: int)
    requires WithValue(r, o.col, v) == WithValue(s, o.col, v) && k <= |r|
    requires forall l | k <= l < |r| :: ColLess(o.order, Val(p, o.col), Val(r[l], o.col))
    ensures WithValue(r[..k] + [p] + r[k..], o.col, v) == WithValue(s + [p], o.col, v)
  {
    var want := (q: Record) => Val(q, o.col) == v;
    assert r == r[..k] + r[k..];
    FilterConcat(r[..k], r[k..], want);
    FilterConcat(r[..k] + [p], r[k..], want);
    FilterConcat(r[..k], [p], want);
    FilterConcat(s, [p], want);
    if want(p) { FilterNone(r[k..], want); }
    var t := r[..k] + [p] + r[k..];
    assert WithValue(t, o.col, v) == Filter(t, want) && WithValue(s + [p], o.col, v) == Filter(s + [p], want);
    assert WithValue(r, o.col, v) == Filter(r, want) && WithValue(s, o.col, v) == Filter(s, want);
  }

  /** std::sort promises the order, not that it is stable. */
  method Sort(s: seq<Record>, o: KeyCol) returns (r: seq<Record>)
    ensures multiset(r) == multiset(s) && ColSorted(r, o)
  {
    r := StableSort(s, o);
  }

  /** SORT_RECORD_RANGE: the last column first, by any sort, and then the others by stable sorts: the result is a
      permutation in the lexicographic order of all columns. */
  method SortRange(s: seq<Record>, orders: seq<KeyCol>) returns (r: seq<Record>)
    ensures multiset(r) == multiset(s) && LexSorted(orders, r)
    ensures orders == [] ==> r == s
    decreases |orders|
  {
    if orders == [] {
      return s;
    }
    if |orders| == 1 {
      r := Sort(s, orders[0]);
      assert orders[1..] == [];
      return;
    }
    var t := SortRange(s, orders[1..]);
    r := StableSort(t, orders[0]);
    StableLex(orders, t, r);
  }

  // ---- the scan plan ----

  /** What the query asks for: the rows in use that some OR-ed and every AND-ed condition accepts. */
  function Asks(key: seq<KeyCol>, e: seq<Term>): Record -> bool { (p: Record) => p.used && ScanWants(key, e, p) }

  ghost function Wanted(q: Query, e: seq<Term>): seq<Record> { Filter(q.Rows(), Asks(q.key, e)) }

  /** SCAN_TABLE::select. It passes over rows that are not in use. */
  method Scan(q: Query, e: seq<Term>, limit: Option<nat>) returns (result: seq<Record>)
    requires q.Valid()
    ensures IsTop(Wanted(q, e), limit, result)
  {
    hide ScanWants, Query.Valid, Flat, Filter, Sorted;
    result := [];
    ghost var want := Asks(q.key, e);
    ghost var rows := q.Rows();
    ghost var n := 0;
    OffsetZero(q.pages);
    FilterNone(rows[..0], want);
    var page := 0;
    while page < |q.pages|
      invariant page <= |q.pages| && n == Offset(q.pages, page) <= |rows|
      invariant result == Filter(rows[..n], want) && (limit.Some? ==> |result| < Cap(limit))
    {
      FlatPage(q.pages, page);
      var slot := 0;
      while slot < |q.pages[page]|
        invariant slot <= |q.pages[page]| && n == Offset(q.pages, page) + slot <= |rows|
        invariant result == Filter(rows[..n], want) && (limit.Some? ==> |result| < Cap(limit))
      {
        var p := q.pages[page][slot];
        ScanNext(rows, n, want);
        n := n + 1;
        if p.used {
          if ScanWants(q.key, e, p) {
            result := result + [p];
            if limit.Some? && limit.value <= |result| {
              return;
            }
          }
        }
        slot := slot + 1;
      }
      page := page + 1;
    }
    assert q.pages[..page] == q.pages && rows[..n] == rows;
  }

  /** The rows asked for, term by term: those in use that some OR-ed search condition and every AND-ed one accepts. */
  lemma AsksMeans(key: seq<KeyCol>, e: seq<Term>, p: Record)
    requires exists k :: 0 <= k < |e| && e[k].op == OR && !e[k].cond.Top? && !e[k].cond.OrderBy?
    ensures Asks(key, e)(p) <==>
      && p.used
      && (exists k :: 0 <= k < |e| && e[k].op == OR && !e[k].cond.Top? && !e[k].cond.OrderBy? && Selects(e[k].cond, p))
      && (forall k | 0 <= k < |e| && e[k].op == AND && !e[k].cond.Top? && !e[k].cond.OrderBy? :: Selects(e[k].cond, p))
  {
    hide ScanWants, Selects;
    assert HasOr(e);
    ScanMeans(key, e, p);
  }

  /** The rows of a scan with the only condition that a column has none of some values. */
  lemma ScanNot(q: Query, col: nat, vs: seq<int>, hint: Hint)
    ensures Wanted(q, [Term(OR, Not(col, vs), hint)]) ==
              Filter(q.Rows(), (p: Record) => p.used && forall k | 0 <= k < |vs| :: Val(p, col) != vs[k])
  {
    var e := [Term(OR, Not(col, vs), hint)];
    var want := (p: Record) => p.used && forall k | 0 <= k < |vs| :: Val(p, col) != vs[k];
    forall p ensures Asks(q.key, e)(p) == want(p) {
      assert e[0].op == OR && !e[0].cond.Top? && !e[0].cond.OrderBy?;
      AsksMeans(q.key, e, p);
    }
    hide Asks;
    FilterSame(q.Rows(), Asks(q.key, e), want);
  }

  lemma {:induction false} FilterSame(s: seq<Record>, a: Record -> bool, b: Record -> bool)
    requires forall p :: a(p) == b(p)
    ensures Filter(s, a) == Filter(s, b)
  {
    if s != [] { FilterSame(s[..|s| - 1], a, b); }
  }

  lemma ScanNext(rows: seq<Record>, n: nat, want: Record -> bool)
    requires n < |rows|
    ensures Filter(rows[..n + 1], want) == Filter(rows[..n], want) + if want(rows[n]) then [rows[n]] else []
    ensures Filter(rows[..n + 1], want) <= Filter(rows, want)
  {
    hide Filter;
    var s, p, t := rows[..n], rows[n], rows[n + 1..];
    TakeNext(rows, n);
    TakeDrop(rows, n + 1);
    FilterOne(p, want);
    FilterConcat(s, [p], want);
    FilterConcat(rows[..n + 1], t, want);
  }

  lemma TakeNext(s: seq<Record>, n: nat)
    requires n < |s|
    ensures s[..n + 1] == s[..n] + [s[n]]
  {
  }

  lemma TakeDrop(s: seq<Record>, n: nat)
    requires n <= |s|
    ensures s == s[..n] + s[n..]
  {
  }

  lemma FilterOne(p: Record, want: Record -> bool)
    ensures Filter([p], want) == if want(p) then [p] else []
  {
    assert [p][..0] == [];
  }

  /** The first rows, as many as TOP allows. */
  ghost predicate IsTop(s: seq<Record>, limit: Option<nat>, r: seq<Record>) {
    r == if limit.Some? && Cap(limit) < |s| then s[..Cap(limit)] else s
  }

  // ---- VALUES ----

  /** SELECT_ORDER_TYPE: the columns of ORDER BY. */
  function OrderList(e: seq<Term>): seq<KeyCol> {
    if e == [] then []
    else (if e[0].cond.OrderBy? then [KeyCol(e[0].cond.col, e[0].cond.order)] else []) + OrderList(e[1..])
  }

  /** SELECT_TOP: the first TOP. */
  function TopOf(e: seq<Term>): Option<nat> {
    if e == [] then None else if e[0].cond.Top? then Some(e[0].cond.n) else TopOf(e[1..])
  }

  lemma {:induction false} TopMeans(e: seq<Term>)
    ensures TopOf(e).None? ==> forall k | 0 <= k < |e| :: !e[k].cond.Top?
    ensures TopOf(e).Some? ==> exists k: nat :: k < |e| && IsFirstTop(e, k, TopOf(e).value)
  {
    if e != [] {
      if e[0].cond.Top? {
        assert IsFirstTop(e, 0, TopOf(e).value);
      } else {
        TopMeans(e[1..]);
        if TopOf(e).None? {
          forall k | 0 <= k < |e| ensures !e[k].cond.Top? { if k > 0 { assert e[1..][k - 1] == e[k]; } }
        } else {
          var k: nat :| k < |e[1..]| && IsFirstTop(e[1..], k, TopOf(e).value);
          forall j | 0 <= j < k + 1 ensures !e[j].cond.Top? { if j > 0 { assert e[1..][j - 1] == e[j]; } }
          assert IsFirstTop(e, k + 1, TopOf(e).value);
        }
      }
    }
  }

  ghost predicate IsFirstTop(e: seq<Term>, k: nat, n: nat)
    requires k < |e|
  {
    e[k].cond == Top(n) && forall j | 0 <= j < k :: !e[j].cond.Top?
  }

  /** The ORDER BY terms of the query, each as long as the columns before it agree: no later row has a smaller value in an
      ascending column, or a greater one in a descending column. */
  ghost predicate OrderedBy(e: seq<Term>, r: seq<Record>) {
    forall i, j, k | 0 <= i < j < |r| && 0 <= k < |e| && e[k].cond.OrderBy? && AgreeBefore(e, k, r[i], r[j]) ::
      if e[k].cond.order == ASC then Val(r[i], e[k].cond.col) <= Val(r[j], e[k].cond.col)
      else Val(r[i], e[k].cond.col) >= Val(r[j], e[k].cond.col)
  }

  ghost predicate AgreeBefore(e: seq<Term>, k: nat, p: Record, q: Record)
    requires k < |e|
  {
    forall l | 0 <= l < k && e[l].cond.OrderBy? :: Val(p, e[l].cond.col) == Val(q, e[l].cond.col)
  }

  lemma {:induction false} PairOrdered(e: seq<Term>, k: nat, p: Record, q: Record)
    requires !KeyLess(OrderList(e), q, p) && k < |e| && e[k].cond.OrderBy? && AgreeBefore(e, k, p, q)
    ensures if e[k].cond.order == ASC then Val(p, e[k].cond.col) <= Val(q, e[k].cond.col)
            else Val(p, e[k].cond.col) >= Val(q, e[k].cond.col)
  {
    var rest := OrderList(e[1..]);
    if e[0].cond.OrderBy? {
      assert OrderList(e) == [KeyCol(e[0].cond.col, e[0].cond.order)] + rest;
      assert OrderList(e)[1..] == rest;
    } else {
      assert OrderList(e) == rest;
    }
    if k > 0 {
      assert e[1..][k - 1] == e[k];
      forall l | 0 <= l < k - 1 && e[1..][l].cond.OrderBy? ensures Val(p, e[1..][l].cond.col) == Val(q, e[1..][l].cond.col) {
        assert e[1..][l] == e[l + 1];
      }
      PairOrdered(e[1..], k - 1, p, q);
    }
  }

  /** Rows in the lexicographic order of the ORDER BY columns are ordered as the query says. */
  lemma LexIsOrdered(e: seq<Term>, r: seq<Record>)
    requires LexSorted(OrderList(e), r)
    ensures OrderedBy(e, r)
  {
    forall i, j, k | 0 <= i < j < |r| && 0 <= k < |e| && e[k].cond.OrderBy? && AgreeBefore(e, k, r[i], r[j])
      ensures if e[k].cond.order == ASC then Val(r[i], e[k].cond.col) <= Val(r[j], e[k].cond.col)
              else Val(r[i], e[k].cond.col) >= Val(r[j], e[k].cond.col)
    {
      PairOrdered(e, k, r[i], r[j]);
    }
  }

  /** remove_order: a scan gives the rows in the order of the first key column anyway. */
  predicate RemovesOrder(key: seq<KeyCol>, e: seq<Term>) {
    !UsesIndex(key, e) && key != [] && OrderList(e) == [key[0]]
  }

  /** The positions of the rows that the chosen plan returns. */
  ghost function PlanRows(q: Query, e: seq<Term>): set<nat> {
    if q.key != [] && UsesIndex(q.key, e) then SeekRows(q, e) else set i: nat | i < |q.Rows()| && Asks(q.key, e)(q.Rows()[i])
  }

  /** The rows that the chosen plan returns, in key order. */
  ghost function Given(q: Query, e: seq<Term>): seq<Record> {
    Pick(q.Rows(), PlanRows(q, e), 0, |q.Rows()|)
  }

  /** A scan gives what the query asks for. */
  lemma ScanGives(q: Query, e: seq<Term>)
    requires !UsesIndex(q.key, e)
    ensures Given(q, e) == Wanted(q, e)
  {
    hide UsesIndex;
    PickIsFilter(q.Rows(), PlanRows(q, e), Asks(q.key, e), |q.Rows()|);
    assert q.Rows()[..|q.Rows()|] == q.Rows();
  }

  lemma GivenSorted(q: Query, e: seq<Term>)
    requires q.Valid()
    ensures Sorted(q.key, Given(q, e))
  {
    hide PlanRows, Flat;
    PickSorted(q.key, q.Rows(), PlanRows(q, e), |q.Rows()|);
  }

  /** Leaving out ORDER BY leaves the rows in its order. */
  lemma RemovedOrder(q: Query, e: seq<Term>)
    requires q.Valid() && RemovesOrder(q.key, e)
    ensures LexSorted(OrderList(e), Given(q, e))
  {
    hide Given, UsesIndex;
    GivenSorted(q, e);
    var r := Given(q, e);
    forall i, j | 0 <= i < j < |r| ensures !KeyLess(OrderList(e), r[j], r[i]) {
      assert KeyLess(q.key, r[i], r[j]);
      assert OrderList(e)[1..] == [];
    }
  }

  /** What the plan returns under a limit: as many rows as TOP lets through, and on a scan the first ones. */
  ghost predicate IsCut(q: Query, e: seq<Term>, limit: Option<nat>, r: seq<Record>) {
    && PartOf(q.Rows(), PlanRows(q, e), r)
    && |r| == Min(Cap(limit), |Given(q, e)|)
    && (!UsesIndex(q.key, e) ==> IsTop(Given(q, e), limit, r))
  }

  /** Any number of the first picked rows are picked rows. */
  lemma TopIsPart(rows: seq<Record>, all: set<nat>, n: nat)
    requires n <= |Pick(rows, all, 0, |rows|)|
    ensures PartOf(rows, all, Pick(rows, all, 0, |rows|)[..n])
  {
    var m := FirstPicked(rows, all, |rows|, n);
    var chosen := set i: nat | i in all && i < m;
    PickConcat(rows, chosen, 0, m, |rows|);
    PickSame(rows, chosen, all, 0, m);
    PickSame(rows, chosen, {}, m, |rows|);
    PickNone(rows, m, |rows|);
  }

  lemma {:induction false} FirstPicked(rows: seq<Record>, all: set<nat>, hi: nat, n: nat) returns (m: nat)
    requires hi <= |rows| && n <= |Pick(rows, all, 0, hi)|
    ensures m <= hi && Pick(rows, all, 0, m) == Pick(rows, all, 0, hi)[..n]
  {
    if n == |Pick(rows, all, 0, hi)| {
      m := hi;
    } else {
      m := FirstPicked(rows, all, hi - 1, n);
    }
  }

  lemma AllIsPart(rows: seq<Record>, all: set<nat>)
    ensures PartOf(rows, all, Pick(rows, all, 0, |rows|))
  {
  }

  /** SCAN_OR_SEEK. */
  method ScanOrSeek(q: Query, e: seq<Term>, limit: Option<nat>) returns (result: seq<Record>)
    requires q.Valid()
    ensures PartOf(q.Rows(), PlanRows(q, e), result)
    ensures limit.None? || |result| < Cap(limit) ==> result == Given(q, e)
    ensures limit.Some? ==> IsCut(q, e, limit, result)
    ensures limit.Some? ==> (|result| <= limit.value <==> limit.value > 0 || Given(q, e) == [])
    ensures limit.Some? ==> |result| == if |Given(q, e)| <= limit.value then |Given(q, e)| else if limit.value == 0 then 1 else limit.value
  {
    hide UsesIndex, SeekRows, Pick, Sorted, Flat, Asks;
    AllIsPart(q.Rows(), PlanRows(q, e));
    if UsesIndex(q.key, e) {
      var plan := new SeekTable(q, e, limit);
      plan.Select();
      result := plan.result;
    } else {
      result := Scan(q, e, limit);
      ScanGives(q, e);
      TopIsPart(q.Rows(), PlanRows(q, e), |result|);
    }
  }

  /** r has the first n rows of a permutation of s in the order of the columns. */
  ghost predicate IsFirstOf(orders: seq<KeyCol>, s: seq<Record>, n: nat, r: seq<Record>) {
    exists t :: multiset(t) == multiset(s) && LexSorted(orders, t) && r == if n < |t| then t[..n] else t
  }

  /** What VALUES returns besides the order: all rows of the plan, or as many of them as TOP lets through. */
  ghost predicate IsValues(q: Query, e: seq<Term>, r: seq<Record>) {
    match TopOf(e)
    case None => multiset(r) == multiset(Given(q, e)) && (OrderList(e) == [] ==> r == Given(q, e))
    case Some(n) =>
      if OrderList(e) == [] || RemovesOrder(q.key, e) then
        && IsCut(q, e, Some(n), r) && (|r| <= n <==> n > 0 || Given(q, e) == [])
        && |r| == if |Given(q, e)| <= n then |Given(q, e)| else if n == 0 then 1 else n
      else IsFirstOf(OrderList(e), Given(q, e), n, r)
  }

  lemma TakeSorted(orders: seq<KeyCol>, s: seq<Record>, r: seq<Record>)
    requires LexSorted(orders, s) && r <= s
    ensures LexSorted(orders, r)
  {
  }

  /** A dropped ORDER BY needs no sorting. */
  lemma CutSorted(q: Query, e: seq<Term>, r: seq<Record>)
    requires q.Valid() && RemovesOrder(q.key, e) && (r == Given(q, e) || IsTop(Given(q, e), TopOf(e), r))
    ensures LexSorted(OrderList(e), r)
  {
    hide Given;
    RemovedOrder(q, e);
    TakeSorted(OrderList(e), Given(q, e), r);
  }

  /** VALUES (QUERY_VALUES): the rows of the plan, in the order of ORDER BY, cut off by TOP. */
  method Values(q: Query, e: seq<Term>) returns (result: seq<Record>)
    requires q.Valid()
    ensures OrderedBy(e, result) && LexSorted(OrderList(e), result) && IsValues(q, e, result)
  {
    hide UsesIndex, Query.Valid, PartOf, Given, OrderedBy;
    if RemovesOrder(q.key, e) {
      result := ScanOrSeek(q, e, TopOf(e));
      CutSorted(q, e, result);
    } else if TopOf(e).Some? && OrderList(e) == [] {
      result := ScanOrSeek(q, e, TopOf(e));
    } else {
      result := SortedValues(q, e);
    }
    LexIsOrdered(e, result);
  }

  /** Without TOP, or with an ORDER BY that is not dropped: all rows are sorted, and then cut off. */
  method SortedValues(q: Query, e: seq<Term>) returns (result: seq<Record>)
    requires q.Valid() && !RemovesOrder(q.key, e) && (TopOf(e).None? || OrderList(e) != [])
    ensures LexSorted(OrderList(e), result) && IsValues(q, e, result)
  {
    hide UsesIndex, Query.Valid, PartOf, Given, LexSorted;
    result := ScanOrSeek(q, e, None);
    result := SortRange(result, OrderList(e));
    if TopOf(e).Some? {
      ghost var all := result;
      if TopOf(e).value < |result| {
        TakeSorted(OrderList(e), result, result[..TopOf(e).value]);
        result := result[..TopOf(e).value];
      }
      assert multiset(all) == multiset(Given(q, e)) && LexSorted(OrderList(e), all);
    }
  }

  /** A table of one row, and SELECT TOP 0: the row comes back. */
  method TopZero() returns (q: Query, e: seq<Term>, result: seq<Record>)
    ensures q.Valid() && TopOf(e) == Some(0) && Wanted(q, e) == Given(q, e)
    ensures IsValues(q, e, result) && |result| == 1
  {
    var p := Record([1], {});
    hide Given, Wanted;
    q := new Query([KeyCol(0, ASC)], [[p]], DataRoot(0));
    e := [Term(OR, All, AUTO), Term(OR, Top(0), AUTO)];
    OneRow(q, e, p);
    result := Values(q, e);
  }

  lemma OneRow(q: Query, e: seq<Term>, p: Record)
    requires q.key == [KeyCol(0, ASC)] && q.pages == [[p]] && q.root == DataRoot(0) && p.used
    requires e == [Term(OR, All, AUTO), Term(OR, Top(0), AUTO)]
    ensures q.Valid() && !UsesIndex(q.key, e) && TopOf(e) == Some(0) && OrderList(e) == [] && Wanted(q, e) == Given(q, e) == [p]
  {
    TwoTerms(q.key, e, p);
    OneTable(q, p);
    FilterOne(p, Asks(q.key, e));
    hide Filter, UsesIndex, ScanWants;
    ScanGives(q, e);
  }

  lemma OneTable(q: Query, p: Record)
    requires q.key != [] && q.pages == [[p]] && q.root == DataRoot(0)
    ensures q.Valid() && q.Rows() == [p]
  {
    OffsetZero(q.pages);
    FlatNext(q.pages, 0);
    assert q.pages[..1] == q.pages;
  }

  lemma TwoTerms(key: seq<KeyCol>, e: seq<Term>, p: Record)
    requires e == [Term(OR, All, AUTO), Term(OR, Top(0), AUTO)]
    ensures !UsesIndex(key, e) && TopOf(e) == Some(0) && OrderList(e) == [] && ScanWants(key, e, p)
  {
    assert e[1..] == [e[1]] && e[1..][1..] == [];
    assert OrderList(e[1..]) == [];
    NoKeyTerms(key, e, OR);
    NoKeyTerms(key, e, AND);
    assert e[0].op == OR && IsSearch(e[0].cond) && Selects(e[0].cond, p);
    assert HasOr(e) && AnyOr(e, p);
    assert AllAnd(e, p) by { assert forall k | 0 <= k < |e| :: e[k].op == OR; }
    ScanMeans(key, e, p);
  }

  lemma NoKeyTerms(key: seq<KeyCol>, e: seq<Term>, op: Op)
    requires forall k | 0 <= k < |e| :: !IsIndex(e[k].cond)
    ensures Terms(key, e, Key, op) == []
  {
    if Terms(key, e, Key, op) != [] { TermsOnly(key, e, Key, op, 0); }
  }
}
