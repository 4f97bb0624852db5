/** When the chosen plan gives the rows that the query asks for. A scan always does. A seek is wrong for three reasons: it
    takes the union of several AND-ed key conditions (QueryProbes), its search may start behind a page without rows
    (IndexTrees), and most of its loops do not pass over rows that are not in use. */
module QueryRights {
  import opened Wrappers
  import opened Queries
  import opened KeyOrders
  import opened QueryScans
  import opened QueryPlans
  import opened QueryResults
  import IndexTrees
  import QueryProbes

  /** There is at most one AND-ed key condition, or they agree wherever it matters. */
  predicate OneCondition(q: Query, e: seq<Term>) {
    q.key != [] && (|Terms(q.key, e, Key, AND)| <= 1 || QueryProbes.Alike(q.key, e))
  }

  lemma SeekWantsAsked(q: Query, e: seq<Term>, p: Record)
    requires UsesIndex(q.key, e) && OneCondition(q, e)
    ensures SeekWants(q.key, e, p) == ScanWants(q.key, e, p)
  {
    hide UsesIndex, SeekWants, ScanWants, Terms, QueryProbes.Alike;
    if |Terms(q.key, e, Key, AND)| <= 1 { SeekIsScan(q.key, e, p); } else { QueryProbes.SeekRightIf(q.key, e, p); }
  }

  /** A key condition of the seek and the rest of the query accept row i. */
  ghost predicate Accepts(q: Query, e: seq<Term>, k: nat, i: nat)
    requires k < |SeekList(q.key, e)| && i < |q.Rows()|
  {
    && Selects(SeekList(q.key, e)[k].cond, q.Rows()[i])
    && SeekAccepts(q.key, e, SeekList(q.key, e)[k].op, q.Rows()[i])
  }

  /** The loop of the condition begins before row i, or at it. */
  ghost predicate Begins(q: Query, e: seq<Term>, k: nat, i: nat)
    requires q.key != [] && k < |SeekList(q.key, e)| && i < |q.Rows()|
  {
    StartFor(q, SeekList(q.key, e)[k].cond, q.Rows()[i]) <= i
  }

  /** No row that is not in use lies where the loop of a condition that accepts it does not pass over it. */
  ghost predicate UnusedHarmless(q: Query, e: seq<Term>)
    requires q.key != []
  {
    forall k: nat, i: nat | k < |SeekList(q.key, e)| && i < |q.Rows()| && !q.Rows()[i].used && Accepts(q, e, k, i) ::
      Skips(q, SeekList(q.key, e)[k].cond) || !Begins(q, e, k, i)
  }

  /** Every row the query asks for is accepted by a condition whose loop begins in time. */
  ghost predicate AllReached(q: Query, e: seq<Term>)
    requires q.key != []
  {
    forall i: nat | i < |q.Rows()| && Asks(q.key, e)(q.Rows()[i]) :: Reached(q, e, i)
  }

  ghost predicate Reached(q: Query, e: seq<Term>, i: nat)
    requires q.key != [] && i < |q.Rows()|
  {
    exists k: nat :: k < |SeekList(q.key, e)| && Accepts(q, e, k, i) && (Skips(q, SeekList(q.key, e)[k].cond) || Begins(q, e, k, i))
  }

  /** What a condition finds, row by row. */
  lemma FindsIs(q: Query, e: seq<Term>, k: nat, i: nat)
    requires q.key != [] && k < |SeekList(q.key, e)| && i < |q.Rows()|
    ensures FindsAll(q, e, SeekList(q.key, e)[k], i) <==>
              Accepts(q, e, k, i) && if Skips(q, SeekList(q.key, e)[k].cond) then q.Rows()[i].used else Begins(q, e, k, i)
  {
    hide SeekAccepts, SeekList, Skips, StartFor, Selects;
  }

  lemma GivesUsed(q: Query, e: seq<Term>, i: nat)
    requires q.key != [] && i < |q.Rows()| && q.Rows()[i].used
    ensures SeekGives(q, e, i) <==> Reached(q, e, i)
  {
    hide FindsAll, Accepts, Begins, SeekList, Skips;
    if SeekGives(q, e, i) {
      var k: nat :| k < |SeekList(q.key, e)| && FindsAll(q, e, SeekList(q.key, e)[k], i);
      FindsIs(q, e, k, i);
    }
    if Reached(q, e, i) {
      var k: nat :| k < |SeekList(q.key, e)| && Accepts(q, e, k, i) && (Skips(q, SeekList(q.key, e)[k].cond) || Begins(q, e, k, i));
      FindsIs(q, e, k, i);
    }
  }

  lemma GivesUnused(q: Query, e: seq<Term>, i: nat)
    requires q.key != [] && i < |q.Rows()| && !q.Rows()[i].used && SeekGives(q, e, i)
    ensures !UnusedHarmless(q, e)
  {
    hide FindsAll, Accepts, Begins, SeekList, Skips;
    var k: nat :| k < |SeekList(q.key, e)| && FindsAll(q, e, SeekList(q.key, e)[k], i);
    FindsIs(q, e, k, i);
  }

  lemma HarmIsGiven(q: Query, e: seq<Term>) returns (i: nat)
    requires q.key != [] && !UnusedHarmless(q, e)
    ensures i < |q.Rows()| && !q.Rows()[i].used && SeekGives(q, e, i)
  {
    hide FindsAll, Accepts, Begins, SeekList, Skips;
    var k: nat;
    k, i :| k < |SeekList(q.key, e)| && i < |q.Rows()| && !q.Rows()[i].used && Accepts(q, e, k, i)
      && !Skips(q, SeekList(q.key, e)[k].cond) && Begins(q, e, k, i);
    FindsIs(q, e, k, i);
  }

  lemma GivenIsAsked(q: Query, e: seq<Term>, i: nat)
    requires q.key != [] && UsesIndex(q.key, e) && OneCondition(q, e) && i < |q.Rows()| && SeekGives(q, e, i)
    ensures ScanWants(q.key, e, q.Rows()[i])
  {
    hide UsesIndex, ScanWants, SeekAccepts, OneCondition, Skips, StartFor, SeekList;
    var k :| 0 <= k < |SeekList(q.key, e)| && FindsAll(q, e, SeekList(q.key, e)[k], i);
    assert SeekWants(q.key, e, q.Rows()[i]);
    SeekWantsAsked(q, e, q.Rows()[i]);
  }

  /** Two selections of rows in key order are the same only if they select the same rows. */
  lemma SamePicked(key: seq<KeyCol>, rows: seq<Record>, a: set<nat>, b: set<nat>, i: nat)
    requires Sorted(key, rows) && Pick(rows, a, 0, |rows|) == Pick(rows, b, 0, |rows|) && i < |rows| && i in a
    ensures i in b
  {
    PickSplit(key, rows, a, i);
    var r, k := Pick(rows, a, 0, |rows|), |Pick(rows, a, 0, i)|;
    assert r[k] == rows[i];
    var j := PickFrom(rows, b, 0, |rows|, k);
    if i < j { SortedDistinct(key, rows, i, j); }
    if j < i { SortedDistinct(key, rows, j, i); }
  }

  lemma SortedDistinct(key: seq<KeyCol>, rows: seq<Record>, i: nat, j: nat)
    requires Sorted(key, rows) && i < j < |rows|
    ensures rows[i] != rows[j]
  {
    KeyLessTotal(key, rows[i], rows[j]);
  }

  /** The positions of the rows that the query asks for. */
  ghost function AskedRows(q: Query, e: seq<Term>): set<nat> {
    set i: nat | i < |q.Rows()| && Asks(q.key, e)(q.Rows()[i])
  }

  lemma AskedPicked(q: Query, e: seq<Term>)
    ensures Wanted(q, e) == Pick(q.Rows(), AskedRows(q, e), 0, |q.Rows()|)
  {
    hide ScanWants, Flat;
    PickIsFilter(q.Rows(), AskedRows(q, e), Asks(q.key, e), |q.Rows()|);
    assert q.Rows()[..|q.Rows()|] == q.Rows();
  }

  lemma PickedSame(key: seq<KeyCol>, rows: seq<Record>, a: set<nat>, b: set<nat>)
    requires Sorted(key, rows) && Pick(rows, a, 0, |rows|) == Pick(rows, b, 0, |rows|)
    requires forall i | i in a || i in b :: i < |rows|
    ensures a == b
  {
    hide Sorted, Pick;
    forall i ensures i in a <==> i in b {
      if i in a { SamePicked(key, rows, a, b, i); }
      if i in b { SamePicked(key, rows, b, a, i); }
    }
  }

  /** The seek gives the rows asked for if and only if no row out of use gets in its way and it reaches all rows. */
  lemma RowsIff(q: Query, e: seq<Term>)
    requires q.key != [] && UsesIndex(q.key, e) && OneCondition(q, e)
    ensures SeekRows(q, e) == AskedRows(q, e) <==> UnusedHarmless(q, e) && AllReached(q, e)
  {
    hide UsesIndex, Flat, OneCondition, UnusedHarmless, SeekGives, Reached, ScanWants;
    forall i: nat | i < |q.Rows()| && q.Rows()[i].used ensures SeekGives(q, e, i) <==> Reached(q, e, i) { GivesUsed(q, e, i); }
    forall i: nat | i < |q.Rows()| && SeekGives(q, e, i) ensures ScanWants(q.key, e, q.Rows()[i]) { GivenIsAsked(q, e, i); }
    if UnusedHarmless(q, e) {
      forall i: nat | i < |q.Rows()| && !q.Rows()[i].used ensures !SeekGives(q, e, i) {
        if SeekGives(q, e, i) { GivesUnused(q, e, i); }
      }
    } else {
      var i := HarmIsGiven(q, e);
      assert i in SeekRows(q, e);
    }
    assert forall i: nat | i < |q.Rows()| :: i in SeekRows(q, e) <==> SeekGives(q, e, i);
    assert forall i: nat | i < |q.Rows()| :: i in AskedRows(q, e) <==> Asks(q.key, e)(q.Rows()[i]);
  }

  /** The plan gives what the query asks for if and only if it is a scan, or no row out of use gets in its way and it
      reaches all rows. */
  lemma PlanIsRight(q: Query, e: seq<Term>)
    requires q.Valid() && OneCondition(q, e)
    ensures Given(q, e) == Wanted(q, e) <==> (UsesIndex(q.key, e) ==> UnusedHarmless(q, e) && AllReached(q, e))
  {
    q.KeyNotEmpty();
    q.RowsSorted();
    hide Query.Valid, UsesIndex, Sorted, Flat, OneCondition, UnusedHarmless, AllReached, Pick, SeekGives, Wanted, ScanWants;
    if !UsesIndex(q.key, e) {
      ScanGives(q, e);
    } else {
      AskedPicked(q, e);
      RowsIff(q, e);
      if Given(q, e) == Wanted(q, e) { PickedSame(q.key, q.Rows(), SeekRows(q, e), AskedRows(q, e)); }
    }
  }

  // ---- gaps ----

  /** The values whose search must start right: those of the conditions that accept a row with the value itself. */
  function SeekStarts(key: seq<KeyCol>, c: Cond): seq<int>
    requires key != []
  {
    match c
    case Where(_, v) => [v]
    case In(_, vs) => vs
    case LessEq(_, v) => if key[0].order == ASC then [] else [v]
    case GreaterEq(_, v) => if key[0].order == ASC then [v] else []
    case Between(_, lo, hi) => if key[0].order == ASC then [lo] else [hi]
    case _ => []
  }

  predicate ConditionStartsRight(q: Query, c: Cond)
    requires q.key != []
  {
    forall k | 0 <= k < |SeekStarts(q.key, c)| :: q.StartsRight(SeekStarts(q.key, c)[k])
  }

  predicate SeekStartsRight(q: Query, e: seq<Term>)
    requires q.key != []
  {
    forall k | 0 <= k < |SeekList(q.key, e)| :: ConditionStartsRight(q, SeekList(q.key, e)[k].cond)
  }

  /** If the search for v starts right it begins before every row that does not come before v. */
  lemma BeginsInTime(q: Query, v: int, i: nat)
    requires q.Valid() && q.StartsRight(v) && i < |q.Rows()| && !Before(q.key, q.Rows()[i], v)
    ensures q.StartOf(v) <= i
  {
    hide Flat, Query.StartOf;
    q.StartFacts(v);
  }

  lemma ConditionBegins(q: Query, c: Cond, i: nat)
    requires q.Valid() && IsIndex(c) && c.col == q.key[0].col && ConditionStartsRight(q, c)
    requires i < |q.Rows()| && Selects(c, q.Rows()[i]) && !Skips(q, c)
    ensures StartFor(q, c, q.Rows()[i]) <= i
  {
    hide Flat, Query.StartOf, Query.StartsRight, Query.Valid, Sorted;
    q.KeyNotEmpty();
    var x := Val(q.Rows()[i], q.key[0].col);
    var starts := SeekStarts(q.key, c);
    if c.In? {
      var k :| 0 <= k < |c.vs| && c.vs[k] == x;
      assert q.StartsRight(starts[k]);
      BeginsInTime(q, x, i);
    } else if starts != [] {
      assert q.StartsRight(starts[0]);
      BeginsInTime(q, starts[0], i);
    }
  }

  /** If the searches start right every row the query asks for is reached. */
  lemma StartsRightReaches(q: Query, e: seq<Term>)
    requires q.Valid() && UsesIndex(q.key, e) && OneCondition(q, e) && SeekStartsRight(q, e)
    ensures AllReached(q, e)
  {
    hide Flat, Query.Valid, UsesIndex, OneCondition, ScanWants, ConditionStartsRight, SeekAccepts, SeekList, Skips, StartFor, Selects, IsKey;
    q.KeyNotEmpty();
    forall i: nat | i < |q.Rows()| && Asks(q.key, e)(q.Rows()[i]) ensures Reached(q, e, i) {
      SeekWantsAsked(q, e, q.Rows()[i]);
      var k :| 0 <= k < |SeekList(q.key, e)| && Selects(SeekList(q.key, e)[k].cond, q.Rows()[i])
        && SeekAccepts(q.key, e, SeekList(q.key, e)[k].op, q.Rows()[i]);
      ListIsKey(q, e, k);
      if !Skips(q, SeekList(q.key, e)[k].cond) { ConditionBegins(q, SeekList(q.key, e)[k].cond, i); }
      assert Accepts(q, e, k, i);
    }
  }

  lemma ListIsKey(q: Query, e: seq<Term>, k: nat)
    requires q.key != [] && k < |SeekList(q.key, e)|
    ensures IsIndex(SeekList(q.key, e)[k].cond) && SeekList(q.key, e)[k].cond.col == q.key[0].col
  {
    TermsOnly(q.key, e, Key, if Terms(q.key, e, Key, AND) == [] then OR else AND, k);
  }

  /** Behind a search that does not start right lies a row with the value. */
  lemma MissedRow(q: Query, v: int) returns (i: nat)
    requires q.Valid() && !q.StartsRight(v)
    ensures i < |q.Rows()| && Val(q.Rows()[i], q.key[0].col) == v && i < q.StartOf(v)
    ensures q.root.IndexRoot? && |q.key| > 1
  {
    hide Flat, Query.StartOf;
    q.StartFacts(v);
    i :| 0 <= i < q.StartOf(v) && i < |q.Rows()| && !Before(q.key, q.Rows()[i], v);
    assert !IndexTrees.AfterValue(q.key, v)(q.Rows()[i]);
  }

  /** The rest of the query accepts every row of the table. */
  ghost predicate RestIsOpen(q: Query, e: seq<Term>) {
    forall i: nat | i < |q.Rows()| :: RestWants(q.key, e, q.Rows()[i])
  }

  /** One AND-ed key condition, other than an empty BETWEEN, and every row in use and accepted by the rest: then the seek
      gives what the query asks for if and only if its searches start right. */
  lemma GapsIff(q: Query, e: seq<Term>)
    requires q.Valid() && UsesIndex(q.key, e) && |Terms(q.key, e, Key, AND)| == 1 && RestIsOpen(q, e)
    requires forall i: nat | i < |q.Rows()| :: q.Rows()[i].used
    requires var c := Terms(q.key, e, Key, AND)[0].cond; c.Between? ==> c.lo <= c.hi
    ensures Given(q, e) == Wanted(q, e) <==> SeekStartsRight(q, e)
  {
    hide Flat, Query.Valid, UsesIndex, RestIsOpen, Terms, Given, Wanted, ConditionStartsRight;
    q.KeyNotEmpty();
    PlanIsRight(q, e);
    if SeekStartsRight(q, e) { StartsRightReaches(q, e); }
    if AllReached(q, e) { ReachesStartsRight(q, e); }
  }

  lemma ReachesStartsRight(q: Query, e: seq<Term>)
    requires q.Valid() && UsesIndex(q.key, e) && |Terms(q.key, e, Key, AND)| == 1 && RestIsOpen(q, e) && AllReached(q, e)
    requires forall i: nat | i < |q.Rows()| :: q.Rows()[i].used
    requires var c := Terms(q.key, e, Key, AND)[0].cond; c.Between? ==> c.lo <= c.hi
    ensures SeekStartsRight(q, e)
  {
    hide Flat, Query.Valid, UsesIndex, Terms, ScanWants, SeekAccepts, Query.StartsRight, Query.StartOf, IsKey;
    q.KeyNotEmpty();
    ListIsKey(q, e, 0);
    var c := SeekList(q.key, e)[0].cond;
    var starts := SeekStarts(q.key, c);
    forall k | 0 <= k < |starts| ensures q.StartsRight(starts[k]) {
      if !q.StartsRight(starts[k]) {
        var i := MissedRow(q, starts[k]);
        OneAsks(q, e, i);
        NotReached(q, e, k, i);
      }
    }
  }

  /** The only condition does not reach a row with the value before the start of the search for it. */
  lemma NotReached(q: Query, e: seq<Term>, k: nat, i: nat)
    requires q.key != [] && |SeekList(q.key, e)| == 1 && i < |q.Rows()| && q.root.IndexRoot? && |q.key| > 1
    requires k < |SeekStarts(q.key, SeekList(q.key, e)[0].cond)|
    requires var v := SeekStarts(q.key, SeekList(q.key, e)[0].cond)[k]; Val(q.Rows()[i], q.key[0].col) == v && i < q.StartOf(v)
    ensures !Reached(q, e, i)
  {
    hide SeekList, SeekAccepts, Query.StartOf, Flat;
  }

  /** The query asks for a row that its only key condition and the rest accept. */
  lemma OneAsks(q: Query, e: seq<Term>, i: nat)
    requires q.key != [] && UsesIndex(q.key, e) && |Terms(q.key, e, Key, AND)| == 1 && RestIsOpen(q, e)
    requires i < |q.Rows()| && q.Rows()[i].used && Selects(SeekList(q.key, e)[0].cond, q.Rows()[i])
    ensures Asks(q.key, e)(q.Rows()[i])
  {
    hide UsesIndex, Selects, SelectOr, Terms;
    QueryProbes.ScanSplit(q.key, e, q.Rows()[i]);
    AndMeans(Terms(q.key, e, Key, AND), q.Rows()[i]);
  }

  // ---- rows that are not in use ----

  /** If the searches start right only rows that are not in use can make the seek wrong. */
  lemma UnusedIff(q: Query, e: seq<Term>)
    requires q.Valid() && UsesIndex(q.key, e) && OneCondition(q, e) && SeekStartsRight(q, e)
    ensures Given(q, e) == Wanted(q, e) <==> UnusedHarmless(q, e)
  {
    hide Query.Valid, UsesIndex, OneCondition, SeekStartsRight, UnusedHarmless, AllReached, Given, Wanted;
    PlanIsRight(q, e);
    StartsRightReaches(q, e);
  }

  /** Seeks that begin at the start of the table give rows in use only: LESS and LESS_EQ with an ascending key, and
      GREATER and GREATER_EQ with a descending one. */
  lemma BeginsUsed(q: Query, e: seq<Term>, i: nat)
    requires q.Valid() && UsesIndex(q.key, e) && i in PlanRows(q, e)
    requires forall k | 0 <= k < |e| && SeeksKey(q.key, e[k]) ::
               if q.key[0].order == ASC then e[k].cond.Less? || e[k].cond.LessEq? else e[k].cond.Greater? || e[k].cond.GreaterEq?
    ensures i < |q.Rows()| && q.Rows()[i].used
  {
    hide UsesIndex, Query.Valid, Flat;
    q.KeyNotEmpty();
    var ts := SeekList(q.key, e);
    var k :| 0 <= k < |ts| && FindsAll(q, e, ts[k], i);
    TermsOnly(q.key, e, Key, if Terms(q.key, e, Key, AND) == [] then OR else AND, k);
    var j :| 0 <= j < |e| && e[j] == ts[k];
    assert SeeksKey(q.key, e[j]);
  }

  /** A table with a row 1 and a row 7 that is not in use, and SELECT WHERE k > 1: row 7 comes back. */
  method UnusedRow() returns (q: Query, e: seq<Term>, result: seq<Record>)
    ensures q.Valid() && UsesIndex(q.key, e) && OneCondition(q, e) && SeekStartsRight(q, e)
    ensures Wanted(q, e) == [] && |result| == 1 && !result[0].used
  {
    var p, r := Record([1], {}), Record([7], {}, false);
    hide Given, Wanted, Query.Valid, SeekStartsRight, UsesIndex, OneCondition;
    q := new Query([KeyCol(0, ASC)], [[p, r]], DataRoot(0));
    e := [Term(OR, Greater(0, 1), AUTO)];
    TwoRows(q, e, p, r);
    result := Values(q, e);
  }

  lemma TwoRows(q: Query, e: seq<Term>, p: Record, r: Record)
    requires q.key == [KeyCol(0, ASC)] && q.pages == [[p, r]] && q.root == DataRoot(0)
    requires p == Record([1], {}) && r == Record([7], {}, false) && e == [Term(OR, Greater(0, 1), AUTO)]
    ensures q.Valid() && UsesIndex(q.key, e) && OneCondition(q, e) && SeekStartsRight(q, e)
    ensures TopOf(e) == None && OrderList(e) == [] && Wanted(q, e) == [] && Given(q, e) == [r]
  {
    OneGreater(q.key, e);
    TwoOnPage(q, p, r);
    hide UsesIndex, Query.Valid, Flat;
    TwoAsked(q, e, p, r);
    TwoGiven(q, e, p, r);
  }

  lemma TwoOnPage(q: Query, p: Record, r: Record)
    requires q.key == [KeyCol(0, ASC)] && q.pages == [[p, r]] && q.root == DataRoot(0) && Val(p, 0) < Val(r, 0)
    ensures q.Valid() && q.Rows() == [p, r]
  {
    OffsetZero(q.pages);
    FlatNext(q.pages, 0);
    assert q.pages[..1] == q.pages;
  }

  lemma OneGreater(key: seq<KeyCol>, e: seq<Term>)
    requires key == [KeyCol(0, ASC)] && e == [Term(OR, Greater(0, 1), AUTO)]
    ensures UsesIndex(key, e) && Terms(key, e, Key, AND) == [] && SeekList(key, e) == e && Terms(key, e, Search, AND) == []
    ensures TopOf(e) == None && OrderList(e) == []
  {
    assert e[1..] == [];
  }

  lemma TwoAsked(q: Query, e: seq<Term>, p: Record, r: Record)
    requires q.Rows() == [p, r] && Val(p, 0) == 1 && !r.used && e == [Term(OR, Greater(0, 1), AUTO)]
    ensures Wanted(q, e) == []
  {
    hide Flat;
    assert HasOr(e);
    ScanMeans(q.key, e, p);
    assert !AnyOr(e, p);
    hide ScanWants, Filter;
    FilterNone(q.Rows(), Asks(q.key, e));
  }

  lemma TwoGiven(q: Query, e: seq<Term>, p: Record, r: Record)
    requires q.key == [KeyCol(0, ASC)] && q.Rows() == [p, r] && q.root == DataRoot(0) && Val(p, 0) == 1 && Val(r, 0) == 7
    requires e == [Term(OR, Greater(0, 1), AUTO)] && UsesIndex(q.key, e) && SeekList(q.key, e) == e && Terms(q.key, e, Search, AND) == []
    ensures Given(q, e) == [r]
  {
    hide UsesIndex, Flat, SeekList, Terms;
    FindsIs(q, e, 0, 0);
    FindsIs(q, e, 0, 1);
    assert !SeekGives(q, e, 0) && SeekGives(q, e, 1);
    hide SeekGives;
    assert SeekRows(q, e) == {1};
    assert Pick(q.Rows(), {1}, 0, 1) == [] && Pick(q.Rows(), {1}, 0, 2) == [r];
  }
}
