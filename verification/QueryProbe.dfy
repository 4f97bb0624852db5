/** For which queries a seek returns what the scan would. With several AND-ed key conditions a seek returns their union, so
    it is right exactly if they agree on every key value that the rest of the query lets through. A condition says the
    same about all values between its literals, so finitely many values, and rows, are enough to find out. */
module QueryProbes {
  import opened Queries

  /** The values a condition compares its column with. */
  function Literals(c: Cond): seq<int> {
    match c
    case Where(_, v) => [v]
    case In(_, vs) => vs
    case Not(_, vs) => vs
    case Less(_, v) => [v]
    case Greater(_, v) => [v]
    case LessEq(_, v) => [v]
    case GreaterEq(_, v) => [v]
    case Between(_, lo, hi) => [lo, hi]
    case _ => []
  }

  function Column(c: Cond): nat {
    if IsIndex(c) || c.Not? || c.IsNull? || c.OrderBy? then c.col else 0
  }

  function AllLiterals(ts: seq<Term>): seq<int> {
    if ts == [] then [] else Literals(ts[0].cond) + AllLiterals(ts[1..])
  }

  /** Zero, and every literal with the values next to it. */
  function Probes(ls: seq<int>): seq<int> {
    if ls == [] then [0] else [ls[0] - 1, ls[0], ls[0] + 1] + Probes(ls[1..])
  }

  /** No literal lies between x and y, or is one of them and not the other. */
  predicate SameSide(ls: seq<int>, x: int, y: int) {
    forall l | l in ls :: (x < l <==> y < l) && (x == l <==> y == l)
  }

  lemma {:induction false} ProbesHave(ls: seq<int>, x: int)
    ensures 0 in Probes(ls)
    ensures x in ls ==> x - 1 in Probes(ls) && x in Probes(ls) && x + 1 in Probes(ls)
  {
    if ls != [] {
      ProbesHave(ls[1..], x);
      var three, rest := [ls[0] - 1, ls[0], ls[0] + 1], Probes(ls[1..]);
      assert three[0] == ls[0] - 1 && three[1] == ls[0] && three[2] == ls[0] + 1;
      assert forall y :: y in Probes(ls) <==> y in three || y in rest;
      assert x in ls ==> x == ls[0] || x in ls[1..];
    }
  }

  /** The greatest literal below x, if there is one. */
  lemma {:induction false} Below(ls: seq<int>, x: int) returns (found: bool, l: int)
    ensures found ==> l in ls && l < x && forall k | k in ls && k < x :: k <= l
    ensures !found ==> forall k | k in ls :: x <= k
  {
    if ls == [] {
      return false, 0;
    }
    found, l := Below(ls[1..], x);
    assert forall k :: k in ls <==> k == ls[0] || k in ls[1..];
    if ls[0] < x && (!found || l < ls[0]) { found, l := true, ls[0]; }
  }

  /** The least literal. */
  lemma {:induction false} Least(ls: seq<int>) returns (l: int)
    requires ls != []
    ensures l in ls && forall k | k in ls :: l <= k
  {
    if |ls| == 1 { return ls[0]; }
    l := Least(ls[1..]);
    assert forall k :: k in ls <==> k == ls[0] || k in ls[1..];
    if ls[0] < l { l := ls[0]; }
  }

  /** Every value has a probe on its side of all literals. */
  lemma ProbeFor(ls: seq<int>, x: int) returns (y: int)
    ensures y in Probes(ls) && SameSide(ls, x, y)
  {
    hide Probes;
    ProbesHave(ls, x);
    if x in ls || ls == [] {
      return if ls == [] then 0 else x;
    }
    var found, l := Below(ls, x);
    if found {
      ProbesHave(ls, l);
      return l + 1;
    }
    l := Least(ls);
    ProbesHave(ls, l);
    return l - 1;
  }

  // ---- conditions see a row through their literals ----

  lemma SelectsSame(c: Cond, p: Record, q: Record)
    requires !c.Lambda? && SameSide(Literals(c), Val(p, Column(c)), Val(q, Column(c)))
    requires c.IsNull? ==> (Column(c) in p.nulls <==> Column(c) in q.nulls)
    ensures Selects(c, p) == Selects(c, q)
  {
    if c.Between? { assert c.lo in Literals(c) && c.hi in Literals(c); }
    else if IsIndex(c) && !c.In? { assert c.v in Literals(c); }
  }

  /** Row p with value x in a column. */
  function WithVal(p: Record, col: nat, x: int): (q: Record)
    ensures Val(q, col) == x && q.nulls == p.nulls && forall k: nat | k != col :: Val(q, k) == Val(p, k)
  {
    Record(seq(if |p.vals| <= col then col + 1 else |p.vals|, (k: nat) => if k == col then x else Val(p, k)), p.nulls, p.used)
  }

  /** Does a condition for the index accept a value? */
  predicate Accepts(c: Cond, x: int) {
    Selects(c, WithVal(Record([], {}), Column(c), x))
  }

  lemma AcceptsVal(c: Cond, p: Record)
    requires IsIndex(c)
    ensures Selects(c, p) == Accepts(c, Val(p, c.col))
  {
    SelectsSame(c, p, WithVal(Record([], {}), c.col, Val(p, c.col)));
  }

  /** The conditions accept x all, or none does. */
  predicate Unanimous(ts: seq<Term>, x: int) {
    || (forall k | 0 <= k < |ts| :: Accepts(ts[k].cond, x))
    || (forall k | 0 <= k < |ts| :: !Accepts(ts[k].cond, x))
  }

  lemma UnanimousSame(ts: seq<Term>, x: int, y: int)
    requires forall t | t in ts :: Accepts(t.cond, x) == Accepts(t.cond, y)
    ensures Unanimous(ts, x) == Unanimous(ts, y)
  {
  }

  // ---- one row ----

  lemma KeyTerms(key: seq<KeyCol>, e: seq<Term>, op: Op)
    ensures forall t | t in Terms(key, e, Key, op) :: t in e && t.op == op && IsKey(key, t)
  {
    var ts := Terms(key, e, Key, op);
    forall t | t in ts ensures t in e && t.op == op && IsKey(key, t) {
      var k :| 0 <= k < |ts| && ts[k] == t;
      TermsOnly(key, e, Key, op, k);
    }
  }

  /** A seek is right about a row exactly if the rest of the query refuses the row, or the AND-ed key conditions agree on
      its key value. */
  lemma RightAt(key: seq<KeyCol>, e: seq<Term>, p: Record)
    requires UsesIndex(key, e) && key != []
    ensures SeekWants(key, e, p) == ScanWants(key, e, p) <==>
              (RestWants(key, e, p) ==> Unanimous(Terms(key, e, Key, AND), Val(p, key[0].col)))
  {
    hide UsesIndex, SeekWants, ScanWants, Terms, Accepts;
    var ands := Terms(key, e, Key, AND);
    if ands == [] {
      SeekIsScan(key, e, p);
    } else {
      SeekUnion(key, e, p);
      ScanSplit(key, e, p);
      AndMeans(ands, p);
      KeyTerms(key, e, AND);
      forall t | t in ands ensures Selects(t.cond, p) == Accepts(t.cond, Val(p, key[0].col)) { AcceptsVal(t.cond, p); }
      hide Selects, SelectOr, SelectAnd, RestWants;
      assert ands[0] in ands;
    }
  }

  lemma ScanSplit(key: seq<KeyCol>, e: seq<Term>, p: Record)
    ensures ScanWants(key, e, p) <==> RestWants(key, e, p) && SelectAnd(Terms(key, e, Key, AND), p)
  {
    SplitAnd(key, e, p);
  }

  // ---- the conditions alone ----

  /** The AND-ed key conditions agree at every literal of theirs and next to it. */
  predicate Alike(key: seq<KeyCol>, e: seq<Term>) {
    forall x | x in Probes(AllLiterals(Terms(key, e, Key, AND))) :: Unanimous(Terms(key, e, Key, AND), x)
  }

  lemma {:induction false} LiteralsIn(ts: seq<Term>, t: Term)
    requires t in ts
    ensures forall l | l in Literals(t.cond) :: l in AllLiterals(ts)
  {
    if t != ts[0] { LiteralsIn(ts[1..], t); }
  }

  /** Then they agree everywhere. */
  lemma AlikeAt(key: seq<KeyCol>, e: seq<Term>, x: int)
    requires Alike(key, e)
    ensures Unanimous(Terms(key, e, Key, AND), x)
  {
    hide Terms, Literals, Accepts, Unanimous, Probes;
    var ts := Terms(key, e, Key, AND);
    var y := ProbeFor(AllLiterals(ts), x);
    KeyTerms(key, e, AND);
    forall t | t in ts ensures Accepts(t.cond, x) == Accepts(t.cond, y) {
      LiteralsIn(ts, t);
      AcceptsSame(t.cond, x, y);
    }
    UnanimousSame(ts, x, y);
  }

  lemma AcceptsSame(c: Cond, x: int, y: int)
    requires IsIndex(c) && SameSide(Literals(c), x, y)
    ensures Accepts(c, x) == Accepts(c, y)
  {
    SelectsSame(c, WithVal(Record([], {}), c.col, x), WithVal(Record([], {}), c.col, y));
  }

  /** Whatever the rest of the query is: a seek is right about every row if the AND-ed key conditions agree at their probes. */
  lemma SeekRightIf(key: seq<KeyCol>, e: seq<Term>, p: Record)
    requires UsesIndex(key, e) && key != [] && Alike(key, e)
    ensures SeekWants(key, e, p) == ScanWants(key, e, p)
  {
    RightAt(key, e, p);
    AlikeAt(key, e, Val(p, key[0].col));
  }

  /** The rest of the query accepts some row at every key value. */
  ghost predicate OpenRest(key: seq<KeyCol>, e: seq<Term>)
    requires key != []
  {
    forall x :: AdmitsKey(key, e, x)
  }

  ghost predicate AdmitsKey(key: seq<KeyCol>, e: seq<Term>, x: int)
    requires key != []
  {
    exists p :: Val(p, key[0].col) == x && RestWants(key, e, p)
  }

  /** Then it is right about every row only if they agree there. */
  lemma SeekRightOpen(key: seq<KeyCol>, e: seq<Term>)
    requires UsesIndex(key, e) && key != [] && OpenRest(key, e)
    ensures (forall p :: SeekWants(key, e, p) == ScanWants(key, e, p)) <==> Alike(key, e)
  {
    hide UsesIndex, SeekWants, ScanWants, RestWants, Terms, Unanimous, Probes;
    if Alike(key, e) {
      forall p ensures SeekWants(key, e, p) == ScanWants(key, e, p) { SeekRightIf(key, e, p); }
    }
    if forall p :: SeekWants(key, e, p) == ScanWants(key, e, p) {
      forall x | x in Probes(AllLiterals(Terms(key, e, Key, AND))) ensures Unanimous(Terms(key, e, Key, AND), x) {
        assert AdmitsKey(key, e, x);
        var p :| Val(p, key[0].col) == x && RestWants(key, e, p);
        RightAt(key, e, p);
      }
    }
  }

  /** A rest that an OR-ed ALL makes open: nothing is AND-ed but key conditions. */
  lemma AllIsOpen(key: seq<KeyCol>, e: seq<Term>)
    requires key != [] && Terms(key, e, NoKey, AND) == [] && exists k :: 0 <= k < |e| && e[k].op == OR && e[k].cond.All?
    ensures OpenRest(key, e)
  {
    var k :| 0 <= k < |e| && e[k].op == OR && e[k].cond.All?;
    forall x ensures AdmitsKey(key, e, x) {
      var p := WithVal(Record([], {}), key[0].col, x);
      assert AnyOr(e, p);
      OrListMeans(key, e, p);
      assert RestWants(key, e, p);
    }
  }

  // ---- the whole query ----

  function Width(e: seq<Term>): nat {
    if e == [] then 0 else if Width(e[1..]) <= Column(e[0].cond) then Column(e[0].cond) + 1 else Width(e[1..])
  }

  function Tuples(n: nat, xs: seq<int>): set<seq<int>> {
    if n == 0 then {[]} else set t, x | t in Tuples(n - 1, xs) && x in xs :: Append(t, x)
  }

  function Append(t: seq<int>, x: int): seq<int> { t + [x] }

  function Subsets(n: nat): set<set<nat>> {
    if n == 0 then {{}} else Subsets(n - 1) + WithEach(Subsets(n - 1), n - 1)
  }

  function WithEach(ss: set<set<nat>>, k: nat): set<set<nat>> { set s | s in ss :: s + {k} }

  /** Finitely many rows, with a probe of the query in every column and any columns null. */
  function TestRows(e: seq<Term>): set<Record> {
    set t, s | t in Tuples(Width(e), Probes(AllLiterals(e))) && s in Subsets(Width(e)) :: Record(t, s)
  }

  lemma {:induction false} InTuples(n: nat, xs: seq<int>, t: seq<int>)
    requires |t| == n && forall k | 0 <= k < n :: t[k] in xs
    ensures t in Tuples(n, xs)
  {
    if n > 0 {
      InTuples(n - 1, xs, t[..n - 1]);
      assert t == Append(t[..n - 1], t[n - 1]) && t[n - 1] in xs;
    }
  }

  lemma {:induction false} InSubsets(n: nat, s: set<nat>)
    requires forall k | k in s :: k < n
    ensures s in Subsets(n)
  {
    if n == 0 {
      assert s == {};
    } else {
      InSubsets(n - 1, s - {n - 1});
      assert s == s - {n - 1} || s == s - {n - 1} + {n - 1};
    }
  }

  lemma {:induction false} WidthCovers(e: seq<Term>, t: Term)
    requires t in e
    ensures Column(t.cond) < Width(e)
  {
    if t != e[0] { WidthCovers(e[1..], t); }
  }

  predicate NoLambda(e: seq<Term>) { forall k | 0 <= k < |e| :: !e[k].cond.Lambda? }

  /** The values of a row, replaced by probes. */
  lemma {:induction false} ProbeVals(ls: seq<int>, p: Record, n: nat) returns (t: seq<int>)
    ensures |t| == n && forall k | 0 <= k < n :: t[k] in Probes(ls) && SameSide(ls, Val(p, k), t[k])
  {
    if n == 0 { return []; }
    t := ProbeVals(ls, p, n - 1);
    var y := ProbeFor(ls, Val(p, n - 1));
    t := t + [y];
  }

  /** Every row has a test row that no condition of the query tells from it. */
  lemma TestRowFor(e: seq<Term>, p: Record) returns (q: Record)
    requires NoLambda(e)
    ensures q in TestRows(e) && forall t | t in e :: Selects(t.cond, q) == Selects(t.cond, p)
  {
    hide Probes, Selects, Tuples, Subsets, Width, Literals, Column;
    var n, ls := Width(e), AllLiterals(e);
    var vals := ProbeVals(ls, p, n);
    var nulls := set k | k in p.nulls && k < n;
    q := Record(vals, nulls);
    InTuples(n, Probes(ls), vals);
    InSubsets(n, nulls);
    forall t | t in e ensures Selects(t.cond, q) == Selects(t.cond, p) {
      WidthCovers(e, t);
      LiteralsIn(e, t);
      var k := Column(t.cond);
      assert SameSide(ls, Val(p, k), vals[k]);
      SelectsSame(t.cond, p, q);
    }
  }

  lemma {:induction false} ListsSame(ts: seq<Term>, p: Record, q: Record, otherwise: bool)
    requires forall t | t in ts :: Selects(t.cond, p) == Selects(t.cond, q)
    ensures SelectOr(ts, p, otherwise) == SelectOr(ts, q, otherwise) && SelectAnd(ts, p) == SelectAnd(ts, q)
  {
    if ts != [] {
      assert ts[0] in ts;
      ListsSame(ts[1..], p, q, false);
    }
  }

  lemma TermsIn(key: seq<KeyCol>, e: seq<Term>, kind: Kind, op: Op)
    ensures forall t | t in Terms(key, e, kind, op) :: t in e
  {
    var ts := Terms(key, e, kind, op);
    forall t | t in ts ensures t in e {
      var k :| 0 <= k < |ts| && ts[k] == t;
      TermsOnly(key, e, kind, op, k);
    }
  }

  lemma RestSame(key: seq<KeyCol>, e: seq<Term>, p: Record, q: Record)
    requires forall t | t in e :: Selects(t.cond, q) == Selects(t.cond, p)
    ensures RestWants(key, e, p) == RestWants(key, e, q)
  {
    hide Terms, Selects;
    TermsIn(key, e, Search, OR);
    TermsIn(key, e, NoKey, AND);
    ListsSame(Terms(key, e, Search, OR), p, q, true);
    ListsSame(Terms(key, e, NoKey, AND), p, q, true);
  }

  /** The AND-ed key conditions agree on the key value of every test row that the rest of the query accepts. */
  predicate SafeToSeek(key: seq<KeyCol>, e: seq<Term>)
    requires key != []
  {
    forall q | q in TestRows(e) && RestWants(key, e, q) :: Unanimous(Terms(key, e, Key, AND), Val(q, key[0].col))
  }

  /** A seek is right about every row if and only if the query is safe, for queries without lambdas. */
  lemma SeekRight(key: seq<KeyCol>, e: seq<Term>)
    requires UsesIndex(key, e) && key != [] && NoLambda(e)
    ensures (forall p :: SeekWants(key, e, p) == ScanWants(key, e, p)) <==> SafeToSeek(key, e)
  {
    hide UsesIndex, SeekWants, ScanWants, RestWants, Terms, Unanimous, TestRows, Selects;
    if SafeToSeek(key, e) {
      forall p ensures SeekWants(key, e, p) == ScanWants(key, e, p) {
        var q := TestRowFor(e, p);
        RestSame(key, e, p, q);
        KeyValSame(key, e, p, q);
        RightAt(key, e, p);
      }
    }
    if forall p :: SeekWants(key, e, p) == ScanWants(key, e, p) {
      forall q | q in TestRows(e) && RestWants(key, e, q) ensures Unanimous(Terms(key, e, Key, AND), Val(q, key[0].col)) {
        RightAt(key, e, q);
      }
    }
  }

  lemma KeyValSame(key: seq<KeyCol>, e: seq<Term>, p: Record, q: Record)
    requires key != [] && forall t | t in e :: Selects(t.cond, q) == Selects(t.cond, p)
    ensures Unanimous(Terms(key, e, Key, AND), Val(p, key[0].col)) == Unanimous(Terms(key, e, Key, AND), Val(q, key[0].col))
  {
    hide Terms, Selects, Accepts, Unanimous;
    var ts := Terms(key, e, Key, AND);
    KeyTerms(key, e, AND);
    forall t | t in ts ensures Accepts(t.cond, Val(p, key[0].col)) == Accepts(t.cond, Val(q, key[0].col)) {
      AcceptsVal(t.cond, p);
      AcceptsVal(t.cond, q);
    }
    UnanimousSame(ts, Val(p, key[0].col), Val(q, key[0].col));
  }
}
