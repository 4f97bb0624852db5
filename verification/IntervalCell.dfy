/** A set of cells, stored as the marks at which its runs start and end (interval_cell.cpp). */
module IntervalCells {

  /** A mark: the start of a run of several cells, or else the end of one, or a lone cell. Cells are 32-bit numbers. */
  datatype Mark = Mark(cell: nat, interval: bool)

  const CELLS: nat := 0x1_0000_0000

  ghost predicate Sorted(m: seq<Mark>) {
    forall i, j | 0 <= i < j < |m| :: m[i].cell < m[j].cell
  }

  /** A start is followed by an end, and between an end or a lone cell and the next mark some cell is missing:
      the runs are maximal. */
  ghost predicate Canonical(m: seq<Mark>) {
    && Sorted(m) && (forall i | 0 <= i < |m| :: m[i].cell < CELLS)
    && (m != [] ==> !m[|m| - 1].interval)
    && (forall i, j | 0 <= i < j < |m| && j == i + 1 ::
          if m[i].interval then !m[j].interval else m[i].cell + 1 < m[j].cell)
  }

  /** A cell is in the set if it has a mark, or lies inside a run. */
  ghost predicate In(m: seq<Mark>, x: nat) {
    exists i :: 0 <= i < |m| && MarkHas(m, i, x)
  }

  ghost predicate MarkHas(m: seq<Mark>, i: nat, x: nat)
    requires i < |m|
  {
    m[i].cell == x || (m[i].interval && i + 1 < |m| && m[i].cell < x < m[i + 1].cell)
  }

  /** r marks lie before cell x. */
  ghost predicate Rank(m: seq<Mark>, x: nat, r: nat) {
    && r <= |m| && (forall i | 0 <= i < r :: m[i].cell < x) && (forall i | r <= i < |m| :: x <= m[i].cell)
  }

  predicate Hit(m: seq<Mark>, x: nat, r: nat)
    requires r <= |m|
  {
    (r < |m| && m[r].cell == x) || (0 < r < |m| && m[r - 1].interval)
  }

  lemma InRank(m: seq<Mark>, x: nat, r: nat)
    requires Sorted(m) && Rank(m, x, r)
    ensures In(m, x) <==> Hit(m, x, r)
  {
    if Hit(m, x, r) {
      if m[r].cell == x { assert MarkHas(m, r, x); } else { assert MarkHas(m, r - 1, x); }
    }
  }

  lemma {:induction false} HasRank(m: seq<Mark>, x: nat) returns (r: nat)
    requires Sorted(m)
    ensures Rank(m, x, r)
  {
    if m == [] || m[|m| - 1].cell < x {
      r := |m|;
    } else {
      r := HasRank(m[..|m| - 1], x);
    }
  }

  // ---- the result of an insertion ----

  predicate NextLeft(m: seq<Mark>, rh: nat, cell: nat)
    requires rh <= |m|
  {
    rh > 0 && m[rh - 1].cell + 1 == cell
  }

  predicate NextRight(m: seq<Mark>, rh: nat, cell: nat) {
    rh < |m| && cell + 1 == m[rh].cell
  }

  /** Does mark i end a run of several cells? */
  predicate Ends(m: seq<Mark>, i: nat)
    requires i <= |m|
  {
    i > 0 && m[i - 1].interval
  }

  /** The marks before place rh that stay. */
  function Left(m: seq<Mark>, rh: nat, cell: nat): seq<Mark>
    requires rh <= |m|
  {
    if NextLeft(m, rh, cell) then m[..rh - 1] else m[..rh]
  }

  /** The marks that replace the left neighbour and the cell. */
  function Middle(m: seq<Mark>, rh: nat, cell: nat): seq<Mark>
    requires rh <= |m|
  {
    if NextLeft(m, rh, cell) then
      (if Ends(m, rh - 1) then [] else [Mark(m[rh - 1].cell, true)])
      + if NextRight(m, rh, cell) then [] else [Mark(cell, false)]
    else [Mark(cell, NextRight(m, rh, cell))]
  }

  /** The marks from place rh on that stay: a run that starts next to the cell loses its start. */
  function Right(m: seq<Mark>, rh: nat, cell: nat): seq<Mark>
    requires rh <= |m|
  {
    if NextRight(m, rh, cell) && m[rh].interval then m[rh + 1..] else m[rh..]
  }

  function Inserted(m: seq<Mark>, rh: nat, cell: nat): seq<Mark>
    requires rh <= |m|
  {
    Left(m, rh, cell) + Middle(m, rh, cell) + Right(m, rh, cell)
  }

  /** The new marks, place by place: lo marks stay, then come the middle ones, and then those from hi on. */
  ghost predicate Spliced(m: seq<Mark>, r: seq<Mark>, rh: nat, cell: nat, lo: nat, hi: nat, mid: seq<Mark>)
    requires rh <= |m|
  {
    && lo == (if NextLeft(m, rh, cell) then rh - 1 else rh)
    && hi == (if NextRight(m, rh, cell) && m[rh].interval then rh + 1 else rh)
    && mid == Middle(m, rh, cell)
    && |r| == lo + |mid| + |m| - hi
    && (forall i {:trigger r[i]} | 0 <= i < |r| ::
          r[i] == if i < lo then m[i] else if i < lo + |mid| then mid[i - lo] else m[i - lo - |mid| + hi])
  }

  lemma InsertedAt(m: seq<Mark>, rh: nat, cell: nat) returns (lo: nat, hi: nat)
    requires rh <= |m|
    ensures Spliced(m, Inserted(m, rh, cell), rh, cell, lo, hi, Middle(m, rh, cell))
  {
    hide Middle;
    lo := if NextLeft(m, rh, cell) then rh - 1 else rh;
    hi := if NextRight(m, rh, cell) && m[rh].interval then rh + 1 else rh;
    assert Left(m, rh, cell) == m[..lo] && Right(m, rh, cell) == m[hi..];
    Concat(m, lo, Middle(m, rh, cell), hi);
  }

  lemma Concat(m: seq<Mark>, lo: nat, mid: seq<Mark>, hi: nat)
    requires lo <= |m| && hi <= |m|
    ensures var r := m[..lo] + mid + m[hi..];
      && |r| == lo + |mid| + |m| - hi
      && (forall i {:trigger r[i]} | 0 <= i < |r| ::
            r[i] == if i < lo then m[i] else if i < lo + |mid| then mid[i - lo] else m[i - lo - |mid| + hi])
  {
  }

  /** The cell is not in the set yet. */
  ghost predicate Absent(m: seq<Mark>, rh: nat, cell: nat) {
    Canonical(m) && cell < CELLS && Rank(m, cell, rh) && !Hit(m, cell, rh)
  }

  lemma InsertedCanonical(m: seq<Mark>, r: seq<Mark>, rh: nat, cell: nat, lo: nat, hi: nat)
    requires Absent(m, rh, cell) && Spliced(m, r, rh, cell, lo, hi, Middle(m, rh, cell))
    ensures Canonical(r)
  {
    hide Canonical, Rank;
    forall i | 0 <= i < |r| ensures r[i].cell < CELLS && (i == |r| - 1 ==> !r[i].interval) {
      OneOk(m, r, rh, cell, lo, hi, i);
    }
    forall i, j | 0 <= i < j < |r|
      ensures r[i].cell < r[j].cell
      ensures j == i + 1 ==> if r[i].interval then !r[j].interval else r[i].cell + 1 < r[j].cell
    {
      TwoOk(m, r, rh, cell, lo, hi, i, j);
    }
    CanonicalFrom(r);
  }

  lemma CanonicalFrom(r: seq<Mark>)
    requires forall i | 0 <= i < |r| :: r[i].cell < CELLS && (i == |r| - 1 ==> !r[i].interval)
    requires forall i, j | 0 <= i < j < |r| :: r[i].cell < r[j].cell
    requires forall i, j | 0 <= i < j < |r| && j == i + 1 :: if r[i].interval then !r[j].interval else r[i].cell + 1 < r[j].cell
    ensures Canonical(r)
  {
  }

  lemma OneOk(m: seq<Mark>, r: seq<Mark>, rh: nat, cell: nat, lo: nat, hi: nat, i: nat)
    requires Absent(m, rh, cell) && Spliced(m, r, rh, cell, lo, hi, Middle(m, rh, cell)) && i < |r|
    ensures r[i].cell < CELLS && (i == |r| - 1 ==> !r[i].interval)
  {
    var x := r[i];
  }

  lemma TwoOk(m: seq<Mark>, r: seq<Mark>, rh: nat, cell: nat, lo: nat, hi: nat, i: nat, j: nat)
    requires Absent(m, rh, cell) && Spliced(m, r, rh, cell, lo, hi, Middle(m, rh, cell)) && i < j < |r|
    ensures r[i].cell < r[j].cell
    ensures j == i + 1 ==> if r[i].interval then !r[j].interval else r[i].cell + 1 < r[j].cell
  {
    var x, y := r[i], r[j];
    if rh > 0 { var a := m[rh - 1]; }
    if rh > 1 { var a := m[rh - 2]; }
    if rh < |m| { var b := m[rh]; }
    if rh + 1 < |m| { var b := m[rh + 1]; }
  }

  /** The insertion adds the cell to the set, and nothing else. */
  lemma InsertedIn(m: seq<Mark>, r: seq<Mark>, rh: nat, cell: nat, lo: nat, hi: nat, x: nat)
    requires Absent(m, rh, cell) && Spliced(m, r, rh, cell, lo, hi, Middle(m, rh, cell)) && Canonical(r)
    ensures In(r, x) <==> In(m, x) || x == cell
  {
    hide In, Canonical, Spliced, Absent, Rank, Hit;
    CanonicalSorted(m, rh, cell);
    var k := HasRank(m, x);
    InRank(m, x, k);
    var l: nat;
    if x < cell {
      l := Before(m, r, rh, cell, lo, hi, x, k);
    } else if x == cell {
      l := AtCell(m, r, rh, cell, lo, hi, k);
    } else {
      l := After(m, r, rh, cell, lo, hi, x, k);
    }
    SortedOf(r);
    InRank(r, x, l);
  }

  lemma CanonicalSorted(m: seq<Mark>, rh: nat, cell: nat)
    requires Absent(m, rh, cell)
    ensures Sorted(m)
  {
  }

  lemma SortedOf(m: seq<Mark>)
    requires Canonical(m)
    ensures Sorted(m)
  {
  }

  lemma Before(m: seq<Mark>, r: seq<Mark>, rh: nat, cell: nat, lo: nat, hi: nat, x: nat, k: nat) returns (l: nat)
    requires Absent(m, rh, cell) && Spliced(m, r, rh, cell, lo, hi, Middle(m, rh, cell))
    requires x < cell && Rank(m, x, k)
    ensures Rank(r, x, l) && (Hit(r, x, l) <==> Hit(m, x, k))
  {
    l := k;
    if rh < |m| { var a := m[rh]; }
    if rh > 0 { var a := m[rh - 1]; }
    if rh > 1 { var a := m[rh - 2]; }
    if k < |m| { var b := m[k]; }
    if k > 0 { var b := m[k - 1]; }
    if l < |r| { var b := r[l]; }
    if l > 0 { var b := r[l - 1]; }
  }

  lemma AtCell(m: seq<Mark>, r: seq<Mark>, rh: nat, cell: nat, lo: nat, hi: nat, k: nat) returns (l: nat)
    requires Absent(m, rh, cell) && Spliced(m, r, rh, cell, lo, hi, Middle(m, rh, cell))
    requires Rank(m, cell, k)
    ensures Rank(r, cell, l) && Hit(r, cell, l)
  {
    l := if NextLeft(m, rh, cell) && !Ends(m, rh - 1) then lo + 1 else lo;
    if rh > 0 { var a := m[rh - 1]; }
    if rh > 1 { var a := m[rh - 2]; }
    if rh < |m| { var a := m[rh]; }
    if rh + 1 < |m| { var a := m[rh + 1]; }
    if l < |r| { var b := r[l]; }
    if l > 0 { var b := r[l - 1]; }
  }

  lemma After(m: seq<Mark>, r: seq<Mark>, rh: nat, cell: nat, lo: nat, hi: nat, x: nat, k: nat) returns (l: nat)
    requires Absent(m, rh, cell) && Spliced(m, r, rh, cell, lo, hi, Middle(m, rh, cell))
    requires x > cell && Rank(m, x, k)
    ensures Rank(r, x, l) && (Hit(r, x, l) <==> Hit(m, x, k))
  {
    hide Canonical;
    l := lo + |Middle(m, rh, cell)| + if k > hi then k - hi else 0;
    assert rh <= k;
    if k < hi {
      AfterNear(m, r, rh, cell, lo, hi, x, k);
    } else {
      AfterFar(m, r, rh, cell, lo, hi, x, k);
    }
  }

  lemma AfterNear(m: seq<Mark>, r: seq<Mark>, rh: nat, cell: nat, lo: nat, hi: nat, x: nat, k: nat)
    requires Absent(m, rh, cell) && Spliced(m, r, rh, cell, lo, hi, Middle(m, rh, cell))
    requires x > cell && Rank(m, x, k) && rh == k < hi
    ensures Rank(r, x, lo + |Middle(m, rh, cell)|) && Hit(r, x, lo + |Middle(m, rh, cell)|) && Hit(m, x, k)
  {
    var l := lo + |Middle(m, rh, cell)|;
    if rh > 0 { var a := m[rh - 1]; }
    if rh > 1 { var a := m[rh - 2]; }
    var b := m[k];
    if l < |r| { var b := r[l]; }
    if l > 0 { var b := r[l - 1]; }
  }

  lemma AfterFar(m: seq<Mark>, r: seq<Mark>, rh: nat, cell: nat, lo: nat, hi: nat, x: nat, k: nat)
    requires Absent(m, rh, cell) && Spliced(m, r, rh, cell, lo, hi, Middle(m, rh, cell))
    requires x > cell && Rank(m, x, k) && k >= hi
    ensures Rank(r, x, lo + |Middle(m, rh, cell)| + k - hi)
    ensures Hit(r, x, lo + |Middle(m, rh, cell)| + k - hi) <==> Hit(m, x, k)
  {
    var l := lo + |Middle(m, rh, cell)| + k - hi;
    AfterRank(m, r, rh, cell, lo, hi, x, k, l);
    hide Rank;
    if rh > 0 { var a := m[rh - 1]; }
    if rh > 1 { var a := m[rh - 2]; }
    if rh < |m| { var a := m[rh]; }
    if k < |m| { var b := m[k]; }
    if k > 0 { var b := m[k - 1]; }
    if l < |r| { var b := r[l]; }
    if l > 0 { var b := r[l - 1]; }
  }

  lemma AfterRank(m: seq<Mark>, r: seq<Mark>, rh: nat, cell: nat, lo: nat, hi: nat, x: nat, k: nat, l: nat)
    requires Absent(m, rh, cell) && Spliced(m, r, rh, cell, lo, hi, Middle(m, rh, cell))
    requires x > cell && Rank(m, x, k) && k >= hi && l == lo + |Middle(m, rh, cell)| + k - hi
    ensures Rank(r, x, l)
  {
    hide Canonical, Hit;
    if rh > 0 { var a := m[rh - 1]; }
  }

  /** The marks are determined by the set: it does not matter in which order the cells were inserted. */
  lemma {:induction false} Unique(m: seq<Mark>, r: seq<Mark>, n: nat)
    requires Canonical(m) && Canonical(r) && n <= |m| && forall x: nat :: In(m, x) <==> In(r, x)
    ensures n <= |r| && m[..n] == r[..n]
  {
    if n > 0 {
      var i := n - 1;
      Unique(m, r, i);
      if i > 0 { assert m[..i][i - 1] == r[..i][i - 1]; }
      SameCell(m, r, i);
    }
  }

  lemma SameMarks(m: seq<Mark>, r: seq<Mark>)
    requires Canonical(m) && Canonical(r) && forall x: nat :: In(m, x) <==> In(r, x)
    ensures m == r
  {
    hide In, Canonical;
    Unique(m, r, |m|);
    Unique(r, m, |r|);
    assert m[..|m|] == m && r[..|r|] == r;
  }

  lemma SameCell(m: seq<Mark>, r: seq<Mark>, i: nat)
    requires Canonical(m) && Canonical(r) && i < |m| && i <= |r| && forall x: nat :: In(m, x) <==> In(r, x)
    requires m[..i] == r[..i]
    ensures i < |r| && m[i] == r[i]
  {
    forall k | 0 <= k < i ensures m[k] == r[k] { assert m[..i][k] == r[..i][k]; }
    if i == |r| || m[i].cell < r[i].cell {
      Earlier(m, r, i);
    } else if r[i].cell < m[i].cell {
      Earlier(r, m, i);
    } else if m[i].interval != r[i].interval {
      if m[i].interval { Longer(m, r, i); } else { Longer(r, m, i); }
    }
  }

  /** Two sets whose marks agree up to place i, where the first has a mark that the second has not. */
  lemma Earlier(m: seq<Mark>, r: seq<Mark>, i: nat)
    requires Canonical(m) && Canonical(r) && i < |m| && i <= |r| && (i < |r| ==> m[i].cell < r[i].cell)
    requires forall k | 0 <= k < i :: m[k] == r[k]
    ensures exists x: nat :: In(m, x) != In(r, x)
  {
    var x := m[i].cell;
    if i > 0 && m[i - 1].interval {
      assert i < |r|;
      assert Rank(r, x + 1, i);
      InRank(r, x + 1, i);
      assert Rank(m, x + 1, i + 1);
      InRank(m, x + 1, i + 1);
      assert In(m, x + 1) != In(r, x + 1);
    } else {
      assert Rank(m, x, i);
      InRank(m, x, i);
      assert Rank(r, x, i);
      InRank(r, x, i);
      assert In(m, x) != In(r, x);
    }
  }

  /** A run in the first where the second has a lone cell or an end. */
  lemma Longer(m: seq<Mark>, r: seq<Mark>, i: nat)
    requires Canonical(m) && Canonical(r) && i < |m| && i < |r| && m[i].cell == r[i].cell && m[i].interval && !r[i].interval
    ensures exists x: nat :: In(m, x) != In(r, x)
  {
    var x := m[i].cell + 1;
    assert i + 1 < |m|;
    assert Rank(m, x, i + 1);
    InRank(m, x, i + 1);
    assert Rank(r, x, i + 1);
    InRank(r, x, i + 1);
    assert In(m, x) != In(r, x);
  }

  // ---- counting ----

  /** The cells of the set, by which it is counted. */
  ghost function CellsOf(m: seq<Mark>): set<nat> {
    set x: nat | x < CELLS && In(m, x)
  }

  /** A run of cells. */
  ghost function Between(a: nat, b: nat): (s: set<nat>)
    requires a <= b
    ensures forall x :: x in s <==> a <= x <= b
    ensures |s| == b - a + 1
    decreases b - a
  {
    if a == b then {a} else Between(a, b - 1) + {b}
  }

  /** The length of a run from a to b, in 32 bits. */
  function RunLength(a: nat, b: nat): nat
    requires a <= b
  {
    (b - a + 1) % CELLS
  }

  /** What the marks count: one for a lone mark, its length for a run. */
  ghost function SizeOf(m: seq<Mark>): nat
    requires Canonical(m)
  {
    var n := |m|;
    if n == 0 then 0
    else if n >= 2 && m[n - 2].interval then SizeOf(m[..n - 2]) + RunLength(m[n - 2].cell, m[n - 1].cell)
    else SizeOf(m[..n - 1]) + 1
  }

  /** Cutting off the last run. */
  lemma CutRun(m: seq<Mark>, n: nat)
    requires Canonical(m) && n < |m| && !m[|m| - 1].interval
    requires n == if |m| >= 2 && m[|m| - 2].interval then |m| - 2 else |m| - 1
    ensures Canonical(m[..n])
    ensures forall x: nat :: In(m, x) <==> In(m[..n], x) || m[n].cell <= x <= m[|m| - 1].cell
    ensures forall x: nat :: In(m[..n], x) ==> x < m[n].cell
  {
    assert m[..n] == [] || !m[..n][n - 1].interval;
    forall x: nat
      ensures In(m, x) <==> In(m[..n], x) || m[n].cell <= x <= m[|m| - 1].cell
      ensures In(m[..n], x) ==> x < m[n].cell
    {
      CutAt(m, n, x);
    }
  }

  lemma CutAt(m: seq<Mark>, n: nat, x: nat)
    requires Canonical(m) && n < |m| && !m[|m| - 1].interval && (n > 0 ==> !m[n - 1].interval)
    requires n == if |m| >= 2 && m[|m| - 2].interval then |m| - 2 else |m| - 1
    ensures In(m, x) <==> In(m[..n], x) || m[n].cell <= x <= m[|m| - 1].cell
    ensures In(m[..n], x) ==> x < m[n].cell
  {
    var p := m[..n];
    if In(p, x) {
      var i :| 0 <= i < n && MarkHas(p, i, x);
      assert MarkHas(m, i, x);
    }
    if In(m, x) {
      var i :| 0 <= i < |m| && MarkHas(m, i, x);
      if i < n { assert MarkHas(p, i, x); }
    }
    if m[n].cell <= x <= m[|m| - 1].cell {
      if x == m[|m| - 1].cell { assert MarkHas(m, |m| - 1, x); } else { assert MarkHas(m, n, x); }
    }
  }

  /** They count the cells of the set, but none for the set of all cells: its one run is as long as 32 bits can count. */
  lemma {:induction false} SizeCard(m: seq<Mark>)
    requires Canonical(m)
    ensures SizeOf(m) == if |CellsOf(m)| == CELLS then 0 else |CellsOf(m)|
    ensures |CellsOf(m)| <= if m == [] then 0 else m[|m| - 1].cell + 1
  {
    if m == [] {
      assert CellsOf(m) == {};
    } else {
      var n := if |m| >= 2 && m[|m| - 2].interval then |m| - 2 else |m| - 1;
      CutRun(m, n);
      hide Canonical, In, CellsOf, SizeOf, RunLength;
      SizeCard(m[..n]);
      CutCells(m, n, m[n].cell, m[|m| - 1].cell);
      LastRun(m, n);
      Wraps(m[n].cell, m[|m| - 1].cell);
    }
  }

  /** The last run and what is counted before it. */
  lemma LastRun(m: seq<Mark>, n: nat)
    requires Canonical(m) && n < |m| && Canonical(m[..n])
    requires n == if |m| >= 2 && m[|m| - 2].interval then |m| - 2 else |m| - 1
    ensures SizeOf(m) == SizeOf(m[..n]) + RunLength(m[n].cell, m[|m| - 1].cell)
    ensures n > 0 ==> m[..n][n - 1].cell + 1 < m[n].cell
    ensures m[|m| - 1].cell < CELLS && (n == 0 ==> SizeOf(m[..n]) == 0)
  {
  }

  lemma Wraps(a: nat, b: nat)
    requires a <= b < CELLS
    ensures RunLength(a, b) == if a == 0 && b == CELLS - 1 then 0 else b - a + 1
  {
  }

  /** The set of all cells has one run, and its size comes out as 0. */
  lemma FullSet()
    ensures var m := [Mark(0, true), Mark(CELLS - 1, false)];
      Canonical(m) && (forall x: nat :: In(m, x) <==> x < CELLS) && |CellsOf(m)| == CELLS && SizeOf(m) == 0
  {
    var m := [Mark(0, true), Mark(CELLS - 1, false)];
    forall x: nat ensures In(m, x) <==> x < CELLS {
      if x < CELLS { assert MarkHas(m, if x == CELLS - 1 then 1 else 0, x); }
    }
    var all := Between(0, CELLS - 1);
    hide Between;
    assert CellsOf(m) == all;
    SizeCard(m);
  }

  lemma CutCells(m: seq<Mark>, n: nat, a: nat, b: nat)
    requires n < |m| && a <= b < CELLS
    requires forall x: nat :: In(m, x) <==> In(m[..n], x) || a <= x <= b
    requires forall x: nat :: In(m[..n], x) ==> x < a
    ensures |CellsOf(m)| == |CellsOf(m[..n])| + b - a + 1
  {
    hide In;
    var run := Between(a, b);
    hide Between;
    assert CellsOf(m) == CellsOf(m[..n]) + run;
    assert CellsOf(m[..n]) !! run;
  }

  class IntervalCell {
    var m: seq<Mark>
    ghost var cells: set<nat>

    ghost predicate Valid()
      reads this
    {
      Canonical(m) && (forall x: nat :: In(m, x) <==> x in cells)
    }

    constructor ()
      ensures Valid() && cells == {}
    {
      m, cells := [], {};
    }

    /** std::set::lower_bound. */
    method LowerBound(cell: nat) returns (rh: nat)
      requires Sorted(m)
      ensures Rank(m, cell, rh)
    {
      rh := 0;
      while rh < |m| && m[rh].cell < cell
        invariant rh <= |m| && forall i | 0 <= i < rh :: m[i].cell < cell
      {
        rh := rh + 1;
      }
    }

    /** Adds a cell, and joins the runs it touches. */
    method Insert(cell: nat)
      requires Valid() && cell < CELLS
      modifies this
      ensures Valid() && cells == old(cells) + {cell}
    {
      hide In;
      var rh := LowerBound(cell);
      InRank(m, cell, rh);
      cells := cells + {cell};
      if Hit(m, cell, rh) {
        return;
      }
      var lo, hi := InsertedAt(m, rh, cell);
      InsertMarks(rh, cell);
      InsertedCanonical(old(m), m, rh, cell, lo, hi);
      forall x: nat ensures In(m, x) <==> In(old(m), x) || x == cell {
        InsertedIn(old(m), m, rh, cell, lo, hi, x);
      }
    }

    /** The branches of insert for a cell that is not in the set. */
    method InsertMarks(rh: nat, cell: nat)
      requires Absent(m, rh, cell)
      modifies `m
      ensures m == Inserted(old(m), rh, cell)
    {
      hide Absent;
      RankBound(m, rh, cell);
      if rh < |m| {
        if rh > 0 && m[rh - 1].cell + 1 == cell {
          if Ends(m, rh - 1) {
            JoinRun(rh, cell);
          } else {
            StartRun(rh, cell);
          }
          return;
        }
        if cell + 1 == m[rh].cell {
          if m[rh].interval {
            m := m[..rh] + [Mark(cell, true)] + m[rh + 1..];
          } else {
            m := m[..rh] + [Mark(cell, true)] + m[rh..];
          }
          return;
        }
      } else if m != [] {
        if m[rh - 1].cell + 1 == cell {
          if Ends(m, rh - 1) {
            JoinRun(rh, cell);
          } else {
            StartRun(rh, cell);
          }
          return;
        }
      }
      m := m[..rh] + [Mark(cell, false)] + m[rh..];
    }

    /** The left neighbour ends a run: the run goes on to the cell, and on into the right neighbour if it touches. */
    method JoinRun(rh: nat, cell: nat)
      requires 0 < rh <= |m| && NextLeft(m, rh, cell) && Ends(m, rh - 1)
      modifies `m
      ensures m == Inserted(old(m), rh, cell)
    {
      var lh := rh - 1;
      if rh < |m| && cell + 1 == m[rh].cell {
        if m[rh].interval {
          m := m[..lh] + m[rh + 1..];
        } else {
          m := m[..lh] + m[rh..];
        }
      } else {
        m := m[..lh] + [Mark(cell, false)] + m[rh..];
      }
    }

    /** The left neighbour is a lone cell: it becomes the start of a run. */
    method StartRun(rh: nat, cell: nat)
      requires 0 < rh <= |m| && NextLeft(m, rh, cell) && !Ends(m, rh - 1)
      modifies `m
      ensures m == Inserted(old(m), rh, cell)
    {
      StartParts(m, rh, cell);
      var lh := rh - 1;
      m := m[lh := Mark(m[lh].cell, true)];
      if rh < |m| && cell + 1 == m[rh].cell {
        if m[rh].interval {
          m := m[..rh] + m[rh + 1..];
        }
      } else {
        m := m[..rh] + [Mark(cell, false)] + m[rh..];
      }
    }

    method Find(cell: nat) returns (found: bool)
      requires Valid()
      ensures found == (cell in cells)
    {
      var rh := LowerBound(cell);
      InRank(m, cell, rh);
      if rh < |m| {
        if m[rh].cell == cell {
          return true;
        }
        if rh > 0 {
          return m[rh - 1].interval;
        }
      }
      return false;
    }

    /** The number of cells, except for the set of all cells: the length of a run is computed in 32 bits. */
    method Size() returns (count: nat)
      requires Valid()
      ensures count == if |cells| == CELLS then 0 else |cells|
      ensures count == |cells| <==> |cells| < CELLS
    {
      AllBelow(m);
      hide In;
      assert CellsOf(m) == cells;
      AtMostAll(m);
      count := 0;
      var interval := false;
      var start := 0;
      var i := 0;
      SizeCard(m);
      while i < |m|
        invariant i <= |m| && (interval <==> i > 0 && m[i - 1].interval)
        invariant !interval ==> Canonical(m[..i]) && count == SizeOf(m[..i])
        invariant interval ==> Canonical(m[..i - 1]) && count == SizeOf(m[..i - 1]) && start == m[i - 1].cell
      {
        SizeStep(m, i);
        if m[i].interval {
          interval := true;
          start := m[i].cell;
        } else if interval {
          interval := false;
          count := count + RunLength(start, m[i].cell);
        } else {
          count := count + 1;
        }
        i := i + 1;
      }
      assert m[..i] == m;
    }
  }

  /** What is still to be done once the left neighbour is a start. */
  lemma StartParts(m: seq<Mark>, rh: nat, cell: nat)
    requires 0 < rh <= |m| && NextLeft(m, rh, cell) && !Ends(m, rh - 1)
    ensures var n := m[rh - 1 := Mark(m[rh - 1].cell, true)];
      Inserted(m, rh, cell) ==
        if NextRight(m, rh, cell) then (if m[rh].interval then n[..rh] + n[rh + 1..] else n)
        else n[..rh] + [Mark(cell, false)] + n[rh..]
  {
    var start := Mark(m[rh - 1].cell, true);
    var n := m[rh - 1 := start];
    assert n[..rh] == m[..rh - 1] + [start] && n[rh..] == m[rh..];
    assert n == n[..rh] + n[rh..];
    if rh < |m| { assert n[rh + 1..] == m[rh + 1..]; }
  }

  lemma AtMostAll(m: seq<Mark>)
    requires Canonical(m)
    ensures |CellsOf(m)| <= CELLS
  {
    SizeCard(m);
  }

  lemma AllBelow(m: seq<Mark>)
    requires Canonical(m)
    ensures forall x: nat :: In(m, x) ==> x < CELLS
  {
  }

  lemma RankBound(m: seq<Mark>, rh: nat, cell: nat)
    requires Absent(m, rh, cell)
    ensures rh <= |m| && (rh == |m| && m != [] ==> rh > 0)
  {
  }

  /** How the count goes on at mark i. */
  lemma SizeStep(m: seq<Mark>, i: nat)
    requires Canonical(m) && i < |m|
    ensures i > 0 && m[i - 1].interval ==> !m[i].interval && m[i - 1].cell < m[i].cell
    ensures !m[i].interval ==> Canonical(m[..i + 1])
    ensures !m[i].interval && i > 0 && m[i - 1].interval && Canonical(m[..i - 1]) ==>
              SizeOf(m[..i + 1]) == SizeOf(m[..i - 1]) + RunLength(m[i - 1].cell, m[i].cell)
    ensures !m[i].interval && !(i > 0 && m[i - 1].interval) && Canonical(m[..i]) ==> SizeOf(m[..i + 1]) == SizeOf(m[..i]) + 1
  {
    if !m[i].interval {
      var p := m[..i + 1];
      assert p[..i] == m[..i];
      if i > 0 { assert p[..i - 1] == m[..i - 1]; }
    }
  }
}
