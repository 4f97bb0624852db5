/** Queries over a table with a clustered index (maketable_select.hpp): conditions, the terms a query is made of,
    and which of its terms the two plans look at. */
module Queries {
  datatype Order = ASC | DESC

  /** The column values of a row, the columns that are null, and whether the row is in use (row_head::use_record): a slot
      may also hold a ghosted row, or one that only forwards. Column values are totally ordered, so integers stand for them. */
  datatype Record = Record(vals: seq<int>, nulls: set<nat>, used: bool := true)

  /** A column of the clustered key, by its position in the row. */
  datatype KeyCol = KeyCol(col: nat, order: Order)

  datatype Op = OR | AND
  datatype Hint = AUTO | USE | IGNORE

  datatype Cond =
    | Where(col: nat, v: int)
    | In(col: nat, vs: seq<int>)
    | Not(col: nat, vs: seq<int>)
    | Less(col: nat, v: int)
    | Greater(col: nat, v: int)
    | LessEq(col: nat, v: int)
    | GreaterEq(col: nat, v: int)
    | Between(col: nat, lo: int, hi: int)
    | Lambda(f: Record -> bool)
    | IsNull(col: nat, value: bool)
    | All
    | Top(n: nat)
    | OrderBy(col: nat, order: Order)

  datatype Term = Term(op: Op, cond: Cond, hint: Hint)

  function Val(p: Record, col: nat): int {
    if col < |p.vals| then p.vals[col] else 0
  }

  /** meta::col_less. */
  predicate ColLess(o: Order, x: int, y: int) {
    if o == ASC then x < y else y < x
  }

  /** RECORD_SELECT. TOP and ORDER BY are no search conditions. */
  predicate Selects(c: Cond, p: Record) {
    match c
    case Where(col, v) => Val(p, col) == v
    case In(col, vs) => Val(p, col) in vs
    case Not(col, vs) => Val(p, col) !in vs
    case Less(col, v) => ColLess(ASC, Val(p, col), v)
    case Greater(col, v) => ColLess(DESC, Val(p, col), v)
    case LessEq(col, v) => Val(p, col) == v || ColLess(ASC, Val(p, col), v)
    case GreaterEq(col, v) => Val(p, col) == v || ColLess(DESC, Val(p, col), v)
    case Between(col, lo, hi) =>
      && (Val(p, col) == lo || ColLess(DESC, Val(p, col), lo))
      && (Val(p, col) == hi || ColLess(ASC, Val(p, col), hi))
    case Lambda(f) => f(p)
    case IsNull(col, value) => (col in p.nulls) == value
    case All => true
    case Top(_) => false
    case OrderBy(_, _) => false
  }

  /** What the search conditions say about a row with value x in their column, in plain terms. */
  lemma SelectsMeans(col: nat, v: int, w: int, vs: seq<int>, f: Record -> bool, p: Record)
    requires col < |p.vals|
    ensures var x := p.vals[col];
      && (Selects(Where(col, v), p) <==> x == v)
      && (Selects(Less(col, v), p) <==> x < v) && (Selects(Greater(col, v), p) <==> v < x)
      && (Selects(LessEq(col, v), p) <==> x <= v) && (Selects(GreaterEq(col, v), p) <==> v <= x)
      && (Selects(Between(col, v, w), p) <==> v <= x <= w)
      && (Selects(In(col, vs), p) <==> exists k :: 0 <= k < |vs| && vs[k] == x)
      && (Selects(Not(col, vs), p) <==> forall k | 0 <= k < |vs| :: vs[k] != x)
      && (Selects(IsNull(col, true), p) <==> col in p.nulls) && (Selects(IsNull(col, false), p) <==> col !in p.nulls)
      && (Selects(Lambda(f), p) <==> f(p)) && Selects(All, p)
  {
  }

  /** The laws between the conditions, for any rows. */
  lemma SelectsLaws(col: nat, v: int, w: int, vs: seq<int>, p: Record, q: Record)
    ensures Selects(Not(col, vs), p) <==> !Selects(In(col, vs), p)
    ensures Selects(In(col, vs), p) <==> exists k :: 0 <= k < |vs| && Selects(Where(col, vs[k]), p)
    ensures Selects(IsNull(col, true), p) <==> !Selects(IsNull(col, false), p)
    ensures Selects(LessEq(col, v), p) <==> Selects(Less(col, v), p) || Selects(Where(col, v), p)
    ensures Selects(GreaterEq(col, v), p) <==> Selects(Greater(col, v), p) || Selects(Where(col, v), p)
    ensures Selects(Between(col, v, w), p) <==> Selects(GreaterEq(col, v), p) && Selects(LessEq(col, w), p)
    ensures Selects(Less(col, v), p) || Selects(Where(col, v), p) || Selects(Greater(col, v), p)
    ensures !(Selects(Less(col, v), p) && Selects(GreaterEq(col, v), p)) && !(Selects(LessEq(col, v), p) && Selects(Greater(col, v), p))
    ensures Selects(Less(col, v), p) && v <= w ==> Selects(Less(col, w), p)
    ensures Selects(Where(col, v), p) && Selects(Where(col, w), q) && v < w ==>
              Selects(Less(col, w), p) && Selects(Greater(col, v), q)
  {
  }

  /** is_condition_search. */
  predicate IsSearch(c: Cond) { !c.Top? && !c.OrderBy? }

  /** is_condition_index. */
  predicate IsIndex(c: Cond) {
    c.Where? || c.In? || c.Less? || c.Greater? || c.LessEq? || c.GreaterEq? || c.Between?
  }

  /** make_query_::use_index for key position 0. */
  predicate IsKey(key: seq<KeyCol>, t: Term) {
    IsIndex(t.cond) && key != [] && t.cond.col == key[0].col && t.hint != IGNORE
  }

  // ---- the lists of SEARCH_KEY ----

  datatype Kind = Search | Key | NoKey | Lambdas | Nulls

  predicate IsKind(key: seq<KeyCol>, kind: Kind, t: Term) {
    match kind
    case Search => IsSearch(t.cond)
    case Key => IsKey(key, t)
    case NoKey => IsSearch(t.cond) && !IsKey(key, t)
    case Lambdas => t.cond.Lambda?
    case Nulls => t.cond.IsNull?
  }

  /** search_key: the terms of a kind with an operator, in their order. */
  function Terms(key: seq<KeyCol>, e: seq<Term>, kind: Kind, op: Op): seq<Term> {
    if e == [] then []
    else (if e[0].op == op && IsKind(key, kind, e[0]) then [e[0]] else []) + Terms(key, e[1..], kind, op)
  }

  /** IS_SEEK_TABLE::use_index. */
  predicate UsesIndex(key: seq<KeyCol>, e: seq<Term>) {
    && Terms(key, e, Lambdas, OR) == [] && Terms(key, e, Nulls, OR) == []
    && (Terms(key, e, Key, AND) != [] || (Terms(key, e, Key, OR) != [] && Terms(key, e, NoKey, OR) == []))
  }

  /** SELECT_OR; otherwise is its result for an empty list. */
  predicate SelectOr(ts: seq<Term>, p: Record, otherwise: bool) {
    if ts == [] then otherwise else Selects(ts[0].cond, p) || SelectOr(ts[1..], p, false)
  }

  /** SELECT_AND. */
  predicate SelectAnd(ts: seq<Term>, p: Record) {
    if ts == [] then true else Selects(ts[0].cond, p) && SelectAnd(ts[1..], p)
  }

  /** SCAN_TABLE::is_select. */
  predicate ScanWants(key: seq<KeyCol>, e: seq<Term>, p: Record) {
    SelectOr(Terms(key, e, Search, OR), p, true) && SelectAnd(Terms(key, e, Search, AND), p)
  }

  /** SEEK_TABLE::is_select, what is left to check for a row that a key condition with this operator has found. */
  predicate SeekAccepts(key: seq<KeyCol>, e: seq<Term>, op: Op, p: Record) {
    if op == OR then SelectAnd(Terms(key, e, Search, AND), p)
    else SelectOr(Terms(key, e, Search, OR), p, true) && SelectAnd(Terms(key, e, NoKey, AND), p)
  }

  /** The key conditions that SEEK_TABLE::select runs through. */
  function SeekList(key: seq<KeyCol>, e: seq<Term>): seq<Term> {
    if Terms(key, e, Key, AND) == [] then Terms(key, e, Key, OR) else Terms(key, e, Key, AND)
  }

  /** The rows that SEEK_TABLE returns. */
  predicate SeekWants(key: seq<KeyCol>, e: seq<Term>, p: Record) {
    exists k :: 0 <= k < |SeekList(key, e)| && Selects(SeekList(key, e)[k].cond, p)
                && SeekAccepts(key, e, SeekList(key, e)[k].op, p)
  }

  /** An AND-ed or OR-ed condition on the first key column that a seek can start from, in plain terms. */
  ghost predicate SeeksKey(key: seq<KeyCol>, t: Term) {
    && (t.cond.Where? || t.cond.In? || t.cond.Less? || t.cond.Greater? || t.cond.LessEq? || t.cond.GreaterEq? || t.cond.Between?)
    && key != [] && t.cond.col == key[0].col && t.hint != IGNORE
  }

  /** An index is used exactly if no lambda or null condition is OR-ed, and some key condition is AND-ed, or one is OR-ed
      and nothing else is. */
  lemma UsesIndexIff(key: seq<KeyCol>, e: seq<Term>)
    ensures UsesIndex(key, e) <==>
      && (forall k | 0 <= k < |e| && e[k].op == OR :: !e[k].cond.Lambda? && !e[k].cond.IsNull?)
      && ((exists k :: 0 <= k < |e| && e[k].op == AND && SeeksKey(key, e[k]))
          || ((exists k :: 0 <= k < |e| && e[k].op == OR && SeeksKey(key, e[k]))
              && forall k | 0 <= k < |e| && e[k].op == OR && !e[k].cond.Top? && !e[k].cond.OrderBy? :: SeeksKey(key, e[k])))
  {
    hide Terms;
    NoTermsIff(key, e, Lambdas, OR);
    NoTermsIff(key, e, Nulls, OR);
    NoTermsIff(key, e, Key, AND);
    NoTermsIff(key, e, Key, OR);
    NoTermsIff(key, e, NoKey, OR);
    assert forall k | 0 <= k < |e| :: IsKey(key, e[k]) <==> SeeksKey(key, e[k]);
  }

  lemma NoTermsIff(key: seq<KeyCol>, e: seq<Term>, kind: Kind, op: Op)
    ensures Terms(key, e, kind, op) == [] <==> forall k | 0 <= k < |e| && e[k].op == op :: !IsKind(key, kind, e[k])
  {
    if Terms(key, e, kind, op) == [] {
      forall k | 0 <= k < |e| && e[k].op == op ensures !IsKind(key, kind, e[k]) {
        if IsKind(key, kind, e[k]) { TermsAt(key, e, kind, op, k); }
      }
    } else {
      TermsOnly(key, e, kind, op, 0);
    }
  }

  // ---- what the lists mean ----

  lemma {:induction false} TermsAt(key: seq<KeyCol>, e: seq<Term>, kind: Kind, op: Op, k: nat)
    requires k < |e| && e[k].op == op && IsKind(key, kind, e[k])
    ensures exists j :: 0 <= j < |Terms(key, e, kind, op)| && Terms(key, e, kind, op)[j] == e[k]
  {
    var ts := Terms(key, e, kind, op);
    if k == 0 {
      assert ts[0] == e[0];
    } else {
      TermsAt(key, e[1..], kind, op, k - 1);
      var rest := Terms(key, e[1..], kind, op);
      var j :| 0 <= j < |rest| && rest[j] == e[k];
      assert ts[|ts| - |rest| + j] == e[k];
    }
  }

  lemma {:induction false} TermsOnly(key: seq<KeyCol>, e: seq<Term>, kind: Kind, op: Op, j: nat)
    requires j < |Terms(key, e, kind, op)|
    ensures Terms(key, e, kind, op)[j].op == op && IsKind(key, kind, Terms(key, e, kind, op)[j])
    ensures exists k :: 0 <= k < |e| && e[k] == Terms(key, e, kind, op)[j]
  {
    if e[0].op == op && IsKind(key, kind, e[0]) {
      if j == 0 {
        assert e[0] == Terms(key, e, kind, op)[j];
      } else {
        TermsOnly(key, e[1..], kind, op, j - 1);
        var k :| 0 <= k < |e[1..]| && e[1..][k] == Terms(key, e[1..], kind, op)[j - 1];
        assert e[k + 1] == Terms(key, e, kind, op)[j];
      }
    } else {
      TermsOnly(key, e[1..], kind, op, j);
      var k :| 0 <= k < |e[1..]| && e[1..][k] == Terms(key, e[1..], kind, op)[j];
      assert e[k + 1] == Terms(key, e, kind, op)[j];
    }
  }

  lemma {:induction false} OrMeans(ts: seq<Term>, p: Record, otherwise: bool)
    ensures SelectOr(ts, p, otherwise) <==>
              (ts == [] && otherwise) || exists k :: 0 <= k < |ts| && Selects(ts[k].cond, p)
  {
    if ts != [] {
      OrMeans(ts[1..], p, false);
      if exists k :: 0 <= k < |ts| && Selects(ts[k].cond, p) {
        var k :| 0 <= k < |ts| && Selects(ts[k].cond, p);
        if k > 0 { assert ts[1..][k - 1] == ts[k]; }
      }
      if exists k :: 0 <= k < |ts[1..]| && Selects(ts[1..][k].cond, p) {
        var k :| 0 <= k < |ts[1..]| && Selects(ts[1..][k].cond, p);
        assert Selects(ts[k + 1].cond, p);
      }
    }
  }

  lemma {:induction false} AndMeans(ts: seq<Term>, p: Record)
    ensures SelectAnd(ts, p) <==> forall k | 0 <= k < |ts| :: Selects(ts[k].cond, p)
  {
    if ts != [] {
      AndMeans(ts[1..], p);
      assert forall k | 1 <= k < |ts| :: ts[k] == ts[1..][k - 1];
    }
  }

  /** Some OR-ed term of the query accepts the row. */
  ghost predicate AnyOr(e: seq<Term>, p: Record) {
    exists k :: 0 <= k < |e| && e[k].op == OR && IsSearch(e[k].cond) && Selects(e[k].cond, p)
  }

  /** Every AND-ed term of the query accepts the row. */
  ghost predicate AllAnd(e: seq<Term>, p: Record) {
    forall k | 0 <= k < |e| && e[k].op == AND && IsSearch(e[k].cond) :: Selects(e[k].cond, p)
  }

  /** The program does not compile a query without an OR-ed search condition. */
  ghost predicate HasOr(e: seq<Term>) {
    exists k :: 0 <= k < |e| && e[k].op == OR && IsSearch(e[k].cond)
  }

  lemma OrListMeans(key: seq<KeyCol>, e: seq<Term>, p: Record)
    requires HasOr(e)
    ensures SelectOr(Terms(key, e, Search, OR), p, true) <==> AnyOr(e, p)
  {
    var ts := Terms(key, e, Search, OR);
    OrMeans(ts, p, true);
    var k0 :| 0 <= k0 < |e| && e[k0].op == OR && IsSearch(e[k0].cond);
    TermsAt(key, e, Search, OR, k0);
    if AnyOr(e, p) {
      var k :| 0 <= k < |e| && e[k].op == OR && IsSearch(e[k].cond) && Selects(e[k].cond, p);
      TermsAt(key, e, Search, OR, k);
    }
    if exists j :: 0 <= j < |ts| && Selects(ts[j].cond, p) {
      var j :| 0 <= j < |ts| && Selects(ts[j].cond, p);
      TermsOnly(key, e, Search, OR, j);
    }
  }

  lemma AndListMeans(key: seq<KeyCol>, e: seq<Term>, p: Record)
    ensures SelectAnd(Terms(key, e, Search, AND), p) <==> AllAnd(e, p)
  {
    var ts := Terms(key, e, Search, AND);
    AndMeans(ts, p);
    if SelectAnd(ts, p) {
      forall k | 0 <= k < |e| && e[k].op == AND && IsSearch(e[k].cond) ensures Selects(e[k].cond, p) {
        TermsAt(key, e, Search, AND, k);
      }
    }
    if AllAnd(e, p) {
      forall j | 0 <= j < |ts| ensures Selects(ts[j].cond, p) {
        TermsOnly(key, e, Search, AND, j);
      }
    }
  }

  /** A scan returns the rows that some OR-ed and every AND-ed condition accepts. */
  lemma ScanMeans(key: seq<KeyCol>, e: seq<Term>, p: Record)
    requires HasOr(e)
    ensures ScanWants(key, e, p) <==> AnyOr(e, p) && AllAnd(e, p)
  {
    OrListMeans(key, e, p);
    AndListMeans(key, e, p);
  }

  // ---- seek and scan ----

  /** What a seek that runs through AND-ed key conditions asks of a row besides these. */
  predicate RestWants(key: seq<KeyCol>, e: seq<Term>, p: Record) {
    SelectOr(Terms(key, e, Search, OR), p, true) && SelectAnd(Terms(key, e, NoKey, AND), p)
  }

  /** The AND-ed conditions are the key conditions and the others. */
  lemma {:induction false} SplitAnd(key: seq<KeyCol>, e: seq<Term>, p: Record)
    ensures SelectAnd(Terms(key, e, Search, AND), p) <==>
              SelectAnd(Terms(key, e, Key, AND), p) && SelectAnd(Terms(key, e, NoKey, AND), p)
  {
    if e != [] {
      SplitAnd(key, e[1..], p);
      ConsAnd(key, e, Search, p);
      ConsAnd(key, e, Key, p);
      ConsAnd(key, e, NoKey, p);
    }
  }

  lemma ConsAnd(key: seq<KeyCol>, e: seq<Term>, kind: Kind, p: Record)
    requires e != []
    ensures SelectAnd(Terms(key, e, kind, AND), p) <==>
              (e[0].op == AND && IsKind(key, kind, e[0]) ==> Selects(e[0].cond, p)) && SelectAnd(Terms(key, e[1..], kind, AND), p)
  {
    var rest := Terms(key, e[1..], kind, AND);
    if e[0].op == AND && IsKind(key, kind, e[0]) {
      assert ([e[0]] + rest)[1..] == rest;
    } else {
      assert [] + rest == rest;
    }
  }

  /** If all OR-ed search conditions are key conditions the two lists are the same. */
  lemma {:induction false} KeyOrIsSearchOr(key: seq<KeyCol>, e: seq<Term>)
    requires Terms(key, e, NoKey, OR) == []
    ensures Terms(key, e, Key, OR) == Terms(key, e, Search, OR)
  {
    if e != [] {
      assert Terms(key, e[1..], NoKey, OR) == [];
      KeyOrIsSearchOr(key, e[1..]);
    }
  }

  /** The seek plan returns the rows of the scan plan, if there is at most one AND-ed key condition. */
  lemma SeekIsScan(key: seq<KeyCol>, e: seq<Term>, p: Record)
    requires UsesIndex(key, e) && |Terms(key, e, Key, AND)| <= 1
    ensures SeekWants(key, e, p) == ScanWants(key, e, p)
  {
    var ands, ors := Terms(key, e, Key, AND), Terms(key, e, Key, OR);
    SplitAnd(key, e, p);
    if ands == [] {
      KeyOrIsSearchOr(key, e);
      OrMeans(ors, p, true);
      forall k | 0 <= k < |ors| ensures ors[k].op == OR { TermsOnly(key, e, Key, OR, k); }
      assert SeekList(key, e) == ors;
      if ScanWants(key, e, p) {
        var k :| 0 <= k < |ors| && Selects(ors[k].cond, p);
        assert SeekAccepts(key, e, SeekList(key, e)[k].op, p);
      }
    } else {
      SeekUnion(key, e, p);
      AndMeans(ands, p);
    }
  }

  /** With several AND-ed key conditions the seek plan returns the union of what they find. */
  lemma SeekUnion(key: seq<KeyCol>, e: seq<Term>, p: Record)
    requires UsesIndex(key, e) && |Terms(key, e, Key, AND)| > 0
    ensures SeekWants(key, e, p) <==>
              RestWants(key, e, p) && exists k :: 0 <= k < |Terms(key, e, Key, AND)| && Selects(Terms(key, e, Key, AND)[k].cond, p)
  {
    var ands := Terms(key, e, Key, AND);
    forall k | 0 <= k < |ands| ensures ands[k].op == AND { TermsOnly(key, e, Key, AND, k); }
    assert SeekList(key, e) == ands;
    if RestWants(key, e, p) && exists k :: 0 <= k < |ands| && Selects(ands[k].cond, p) {
      var k :| 0 <= k < |ands| && Selects(ands[k].cond, p);
      assert SeekAccepts(key, e, SeekList(key, e)[k].op, p);
    }
  }

  /** A query that goes wrong: every row with k > 1 and k < 5 also returns the row with k = 7. */
  lemma SeekWrong()
    ensures var key := [KeyCol(0, ASC)];
      var e := [Term(OR, All, AUTO), Term(AND, Greater(0, 1), AUTO), Term(AND, Less(0, 5), AUTO)];
      UsesIndex(key, e) && SeekWants(key, e, Record([7], {})) && !ScanWants(key, e, Record([7], {}))
  {
    var key := [KeyCol(0, ASC)];
    var t0, t1, t2 := Term(OR, All, AUTO), Term(AND, Greater(0, 1), AUTO), Term(AND, Less(0, 5), AUTO);
    var e := [t0, t1, t2];
    var p := Record([7], {});
    hide Terms, SelectOr, SelectAnd;
    WrongLists(key, t0, t1, t2);
    assert SeekList(key, e)[0] == t1;
    WrongRow(t0, t1, t2, p);
  }

  lemma WrongRow(t0: Term, t1: Term, t2: Term, p: Record)
    requires t0.cond.All? && !Selects(t2.cond, p)
    ensures SelectOr([t0], p, true) && SelectAnd([], p) && !SelectAnd([t1, t2], p)
  {
    AndMeans([t1, t2], p);
    assert [t1, t2][1] == t2;
  }

  lemma WrongLists(key: seq<KeyCol>, t0: Term, t1: Term, t2: Term)
    requires !IsKey(key, t0) && t0.op == OR && t0.cond.All? && IsKey(key, t1) && t1.op == AND && IsKey(key, t2) && t2.op == AND
    ensures var e := [t0, t1, t2];
      && Terms(key, e, Key, AND) == [t1, t2] && Terms(key, e, NoKey, AND) == []
      && Terms(key, e, Search, OR) == [t0] && Terms(key, e, Search, AND) == [t1, t2]
      && Terms(key, e, Lambdas, OR) == [] && Terms(key, e, Nulls, OR) == []
  {
    hide Terms;
    ThreeTerms(key, t0, t1, t2, Key, AND);
    ThreeTerms(key, t0, t1, t2, NoKey, AND);
    ThreeTerms(key, t0, t1, t2, Search, OR);
    ThreeTerms(key, t0, t1, t2, Search, AND);
    ThreeTerms(key, t0, t1, t2, Lambdas, OR);
    ThreeTerms(key, t0, t1, t2, Nulls, OR);
  }

  lemma ThreeTerms(key: seq<KeyCol>, t0: Term, t1: Term, t2: Term, kind: Kind, op: Op)
    ensures Terms(key, [t0, t1, t2], kind, op) == OneTerm(key, t0, kind, op) + OneTerm(key, t1, kind, op) + OneTerm(key, t2, kind, op)
  {
    assert [t0, t1, t2][1..] == [t1, t2] && [t1, t2][1..] == [t2] && [t2][1..] == [];
    assert Terms(key, [t2], kind, op) == OneTerm(key, t2, kind, op);
    assert Terms(key, [t1, t2], kind, op) == OneTerm(key, t1, kind, op) + OneTerm(key, t2, kind, op);
  }

  function OneTerm(key: seq<KeyCol>, t: Term, kind: Kind, op: Op): seq<Term> {
    if t.op == op && IsKind(key, kind, t) then [t] else []
  }
}
