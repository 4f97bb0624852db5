/** The rows of a clustered table on its pages, and the loops that walk over them (maketable_scan.hpp). */
module QueryScans {
  import opened Wrappers
  import opened Queries
  import opened KeyOrders
  import opened IndexTrees

  /** A row on a page (page_slot). */
  datatype Pos = Pos(page: nat, slot: nat)

  /** Where the clustered index starts: a single data page, or the root of the index pages. */
  datatype Root = DataRoot(page: nat) | IndexRoot(tree: Node)

  /** A key value of one column. */
  function KeyOf(col: nat, v: int): Record { Record(seq(col + 1, (k: nat) => v), {}) }

  class Query {
    const key: seq<KeyCol>
    const pages: seq<seq<Record>>
    const root: Root

    constructor (key: seq<KeyCol>, pages: seq<seq<Record>>, root: Root)
      ensures this.key == key && this.pages == pages && this.root == root
    {
      this.key, this.pages, this.root := key, pages, root;
    }

    ghost predicate Valid() { key != [] && Sorted(key, Rows()) && RootOk() }

    ghost function Rows(): seq<Record> { Flat(pages) }

    lemma KeyNotEmpty()
      requires Valid()
      ensures key != []
    {
    }

    lemma RowsSorted()
      requires Valid()
      ensures Sorted(key, Rows())
    {
    }

    /** The data page has all rows, or the index pages are in order. */
    ghost predicate RootOk()
      requires key != []
    {
      match root
      case DataRoot(page) => page < |pages| && Offset(pages, page) == 0
      case IndexRoot(tree) => pages != [] && TreeOk(key, pages, tree, 0, |pages|, true)
    }

    /** first_page finds the start of the rows that are not before v (IndexTrees.FirstPageIff). */
    predicate StartsRight(v: int)
      requires key != []
    {
      root.IndexRoot? ==> NoGap(key, pages, root.tree, v)
    }

    /** The position at which the search for v starts. */
    ghost function StartOf(v: int): nat
      requires key != []
    {
      if root.IndexRoot? && FirstPageOf(key, pages, root.tree, v) <= |pages| then Offset(pages, FirstPageOf(key, pages, root.tree, v))
      else 0
    }

    /** No row before it comes after v, and they all come before v exactly if the search starts right. */
    lemma StartFacts(v: int)
      requires Valid()
      ensures StartOf(v) <= |Rows()| && NoneAfter(key, Rows(), v, StartOf(v))
      ensures RowsBefore(0, StartOf(v), v) <==> StartsRight(v)
    {
      hide Flat, Offset, KeyLess, Sorted, TreeOk, NoGap, NoneAfter, FirstPageOf;
      if root.IndexRoot? {
        StartsEarly(key, pages, root.tree, v);
        FirstPageIff(key, pages, root.tree, v);
      } else {
        NothingBefore(key, pages, v);
      }
    }

    /** A key of one column has no gaps. */
    lemma OneColumn(v: int, i: nat)
      requires Valid() && |key| == 1 && i < |Rows()| && Val(Rows()[i], key[0].col) == v
      ensures StartOf(v) <= i
    {
      hide Flat, KeyLess, Sorted, TreeOk, StartOf;
      StartFacts(v);
      assert !Before(key, Rows()[i], v);
    }

    /** Where a position is among all rows. */
    ghost function At(pos: Pos): nat
      requires pos.page < |pages|
    {
      Offset(pages, pos.page) + pos.slot
    }

    ghost predicate OnPage(pos: Pos) { pos.page < |pages| && pos.slot < |pages[pos.page]| }

    lemma RowAt(pos: Pos)
      requires OnPage(pos)
      ensures At(pos) < |Rows()| && Rows()[At(pos)] == pages[pos.page][pos.slot]
    {
      FlatPage(pages, pos.page);
    }

    /** Along the rows the first key column never goes back: what is not before v stays so. */
    lemma Monotone(i: nat, j: nat, v: int)
      requires Valid() && i <= j < |Rows()|
      ensures !Before(key, Rows()[i], v) ==> !Before(key, Rows()[j], v)
      ensures ColLess(key[0].order, v, Val(Rows()[i], key[0].col)) ==> ColLess(key[0].order, v, Val(Rows()[j], key[0].col))
    {
    }

    /** Along the rows, what is not less stays so. */
    ghost predicate Falls(less: Record -> bool) {
      forall i, j | 0 <= i < j < |Rows()| && less(Rows()[j]) :: less(Rows()[i])
    }

    /** Before a value of the first key column, and less than a whole key. */
    lemma SearchesFall(v: int, m: Record)
      requires Valid()
      ensures Falls(BeforeValue(key, v)) && Falls(LessThan(key, m))
    {
      forall i, j | 0 <= i < j < |Rows()| && KeyLess(key, Rows()[j], m) ensures KeyLess(key, Rows()[i], m) {
        KeyLessTrans(key, Rows()[i], Rows()[j], m);
      }
    }

    lemma FallsOnPage(less: Record -> bool, page: nat, s: nat, t: nat)
      requires Falls(less) && page < |pages| && s <= t < |pages[page]| && less(pages[page][t])
      ensures less(pages[page][s])
    {
      FlatPage(pages, page);
      assert Rows()[Offset(pages, page) + s] == pages[page][s] && Rows()[Offset(pages, page) + t] == pages[page][t];
    }

    /** datapage_t::lower_bound on one page. */
    method PageLowerBound(page: nat, less: Record -> bool) returns (first: nat)
      requires Falls(less) && page < |pages|
      ensures first <= |pages[page]|
      ensures forall s | 0 <= s < first :: less(pages[page][s])
      ensures forall s | first <= s < |pages[page]| :: !less(pages[page][s])
    {
      hide Falls;
      var rows := pages[page];
      first := 0;
      var count := |rows|;
      while count > 0
        invariant 0 <= count && first + count <= |rows|
        invariant forall s | 0 <= s < first :: less(rows[s])
        invariant forall s | first + count <= s < |rows| :: !less(rows[s])
        modifies {}
      {
        var half := count / 2;
        var mid := first + half;
        if less(rows[mid]) {
          forall s | 0 <= s < mid + 1 ensures less(rows[s]) { FallsOnPage(less, page, s, mid); }
          first, count := mid + 1, count - half - 1;
        } else {
          forall s: nat | mid <= s < |rows| ensures !less(rows[s]) {
            if less(rows[s]) { FallsOnPage(less, page, mid, s); }
          }
          count := half;
        }
      }
    }

    /** The first row that is not before v, and whether it has v. */
    ghost predicate IsLowerBound(v: int, r: Option<Pos>, equal: bool)
      requires key != []
    {
      IsLowerBoundFrom(0, v, r, equal)
    }

    /** The same among the rows from position n on. */
    ghost predicate IsLowerBoundFrom(n: nat, v: int, r: Option<Pos>, equal: bool)
      requires key != []
    {
      match r
      case None => !equal && RowsBefore(n, |Rows()|, v)
      case Some(pos) =>
        && OnPage(pos) && n <= At(pos) < |Rows()| && Rows()[At(pos)] == pages[pos.page][pos.slot]
        && RowsBefore(n, At(pos), v)
        && !Before(key, Rows()[At(pos)], v)
        && equal == (Val(Rows()[At(pos)], key[0].col) == v)
    }

    /** The rows from position m on and before position n are before v. */
    ghost predicate RowsBefore(m: nat, n: nat, v: int)
      requires key != []
    {
      forall i | m <= i < n && i < |Rows()| :: Before(key, Rows()[i], v)
    }

    /** lower_bound from a page on. */
    method LowerBoundFrom(start: nat, v: int) returns (r: Option<Pos>, equal: bool)
      requires Valid() && key != [] && start <= |pages|
      ensures IsLowerBoundFrom(Offset(pages, start), v, r, equal)
    {
      hide Flat, KeyLess, Sorted, Valid, Falls;
      var page := start;
      ghost var from := Offset(pages, start);
      FlatPrefix(pages, start);
      while page < |pages|
        invariant start <= page <= |pages| && from <= Offset(pages, page) <= |Rows()|
        invariant RowsBefore(from, Offset(pages, page), v)
        modifies {}
      {
        FlatPage(pages, page);
        if pages[page] != [] {
          SearchesFall(v, pages[page][0]);
          var slot := PageLowerBound(page, BeforeValue(key, v));
          PageBefore(from, page, slot, v);
          if slot < |pages[page]| {
            equal := !ColLess(key[0].order, v, Val(pages[page][slot], key[0].col));
            FoundAt(from, page, slot, v, equal);
            return Some(Pos(page, slot)), equal;
          }
        } else {
          PageBefore(from, page, 0, v);
        }
        page := page + 1;
      }
      assert pages[..page] == pages;
      return None, false;
    }

    lemma PageBefore(from: nat, page: nat, slot: nat, v: int)
      requires key != [] && page < |pages| && slot <= |pages[page]| && RowsBefore(from, Offset(pages, page), v)
      requires forall s | 0 <= s < slot :: Before(key, pages[page][s], v)
      ensures RowsBefore(from, Offset(pages, page) + slot, v)
    {
      FlatPage(pages, page);
      forall i | from <= i < Offset(pages, page) + slot && i < |Rows()| ensures Before(key, Rows()[i], v) {
        if i >= Offset(pages, page) { assert Rows()[i] == pages[page][i - Offset(pages, page)]; }
      }
    }

    lemma FoundAt(from: nat, page: nat, slot: nat, v: int, equal: bool)
      requires key != [] && page < |pages| && slot < |pages[page]| && from <= Offset(pages, page) + slot
      requires RowsBefore(from, Offset(pages, page) + slot, v)
      requires !Before(key, pages[page][slot], v) && equal == !ColLess(key[0].order, v, Val(pages[page][slot], key[0].col))
      ensures IsLowerBoundFrom(from, v, Some(Pos(page, slot)), equal)
    {
      FlatPage(pages, page);
    }

    /** The search is right among the rows from its start on, and among all rows exactly if it starts right. */
    method LowerBound(v: int) returns (r: Option<Pos>, equal: bool)
      requires Valid()
      ensures IsLowerBoundFrom(StartOf(v), v, r, equal)
      ensures IsLowerBound(v, r, equal) <==> StartsRight(v)
    {
      hide Flat, KeyLess, Sorted, TreeOk, NoGap;
      var start;
      if root.IndexRoot? {
        start := FirstPage(key, pages, root.tree, v);
      } else {
        start := root.page;
      }
      StartFacts(v);
      r, equal := LowerBoundFrom(start, v);
      BoundOfAll(StartOf(v), v, r, equal);
    }

    lemma BoundOfAll(from: nat, v: int, r: Option<Pos>, equal: bool)
      requires key != [] && IsLowerBoundFrom(from, v, r, equal) && from <= |Rows()|
      ensures IsLowerBound(v, r, equal) <==> RowsBefore(0, from, v)
    {
    }

    /** scan_next, for a callback without effects: the first row from pos on that it refuses. */
    method ScanNext(pos: Pos, accept: Record -> bool) returns (r: Option<Pos>)
      requires Valid() && OnPage(pos)
      ensures match r {
        case None => forall i | At(pos) <= i < |Rows()| :: accept(Rows()[i])
        case Some(q) =>
          && OnPage(q) && At(pos) <= At(q) < |Rows()| && !accept(Rows()[At(q)])
          && (forall i | At(pos) <= i < At(q) :: accept(Rows()[i]))
      }
    {
      hide Flat, KeyLess, Sorted, Valid, Before;
      var page, slot := pos.page, pos.slot;
      RowAt(pos);
      while page < |pages|
        invariant page <= |pages| && 0 <= slot && (page < |pages| ==> slot <= |pages[page]|) && (page == |pages| ==> slot == 0)
        invariant At(pos) <= Offset(pages, page) + slot <= |Rows()|
        invariant forall i | At(pos) <= i < Offset(pages, page) + slot :: accept(Rows()[i])
        decreases |pages| - page
        modifies {}
      {
        FlatPage(pages, page);
        while slot < |pages[page]|
          invariant 0 <= slot <= |pages[page]| && At(pos) <= Offset(pages, page) + slot
          invariant forall i | At(pos) <= i < Offset(pages, page) + slot :: accept(Rows()[i])
          modifies {}
        {
          RowAt(Pos(page, slot));
          if !accept(pages[page][slot]) {
            return Some(Pos(page, slot));
          }
          slot := slot + 1;
        }
        page, slot := page + 1, 0;
      }
      assert pages[..page] == pages;
      return None;
    }

    /** find_with_index: the only row with the key, or none. */
    method FindWithIndex(m: Record) returns (r: Option<Record>, ghost k: nat)
      requires Valid()
      ensures r.Some? ==> k < |Rows()| && Rows()[k] == r.value && SameKey(key, r.value, m)
      ensures r.Some? ==> forall i | 0 <= i < |Rows()| && SameKey(key, Rows()[i], m) :: i == k
      ensures r.Some? && root.DataRoot? ==> r.value.used
      ensures r.None? ==> forall i | 0 <= i < |Rows()| && SameKey(key, Rows()[i], m) :: root.DataRoot? && !Rows()[i].used
    {
      if root.IndexRoot? {
        r, k := FindOnPage(m);
      } else {
        r, k := FindByScan(m);
      }
      if r.Some? {
        forall i: nat | i < |Rows()| && SameKey(key, Rows()[i], m) ensures i == k { KeyIsUnique(i, k, m); }
      }
    }

    /** For a key of one column the key is the value. */
    lemma KeyOfValue(v: int)
      requires |key| == 1
      ensures forall p :: SameKey(key, p, KeyOf(key[0].col, v)) <==> Val(p, key[0].col) == v
    {
    }

    lemma KeyIsUnique(i: nat, j: nat, m: Record)
      requires Valid() && i < |Rows()| && j < |Rows()| && SameKey(key, Rows()[i], m) && SameKey(key, Rows()[j], m)
      ensures i == j
    {
      hide KeyLess, Flat;
      assert SameKey(key, Rows()[i], Rows()[j]);
      KeyLessTotal(key, Rows()[i], Rows()[j]);
      KeyLessTotal(key, Rows()[j], Rows()[i]);
    }

    /** find_with_index for a table with index pages. */
    method FindOnPage(m: Record) returns (r: Option<Record>, ghost k: nat)
      requires Valid() && root.IndexRoot?
      ensures r.Some? ==> k < |Rows()| && Rows()[k] == r.value && SameKey(key, r.value, m)
      ensures r.None? ==> forall i | 0 <= i < |Rows()| :: !SameKey(key, Rows()[i], m)
    {
      hide Flat, KeyLess, SameKey, Falls, Among, Sorted, TreeOk;
      var page := FindPage(key, pages, root.tree, m);
      if pages[page] != [] {
        SearchesFall(0, m);
        var slot := PageLowerBound(page, LessThan(key, m));
        k := Offset(pages, page) + slot;
        OnFoundPage(page, slot, m);
        if slot < |pages[page]| {
          var p := pages[page][slot];
          RowAt(Pos(page, slot));
          if !KeyLess(key, m, p) {
            KeyLessTotal(key, p, m);
            return Some(p), k;
          }
          NotThere(p, m);
        }
      } else {
        NoRowThere(page, m);
      }
      return None, 0;
    }

    lemma NotThere(p: Record, m: Record)
      requires KeyLess(key, m, p)
      ensures !SameKey(key, p, m)
    {
      KeyLessTotal(key, m, p);
    }

    lemma NoRowThere(page: nat, m: Record)
      requires page < |pages| && pages[page] == []
      requires Among(key, Rows(), m, Offset(pages, page), Offset(pages, page + 1))
      ensures forall i | 0 <= i < |Rows()| :: !SameKey(key, Rows()[i], m)
    {
      FlatPage(pages, page);
    }

    /** A row with key m is at the slot that lower_bound finds, or nowhere. */
    lemma OnFoundPage(page: nat, slot: nat, m: Record)
      requires key != [] && page < |pages| && slot <= |pages[page]|
      requires Among(key, Rows(), m, Offset(pages, page), Offset(pages, page + 1))
      requires forall s | 0 <= s < slot :: LessThan(key, m)(pages[page][s])
      requires forall s | slot <= s < |pages[page]| :: !LessThan(key, m)(pages[page][s])
      requires Sorted(key, Rows())
      ensures forall i | 0 <= i < |Rows()| && SameKey(key, Rows()[i], m) ::
                slot < |pages[page]| && Rows()[i] == pages[page][slot]
    {
      hide Flat, KeyLess, SameKey;
      FlatPage(pages, page);
      forall i: nat | i < |Rows()| && SameKey(key, Rows()[i], m) ensures slot < |pages[page]| && Rows()[i] == pages[page][slot] {
        var s := i - Offset(pages, page);
        assert Rows()[i] == pages[page][s];
        KeyLessTotal(key, Rows()[i], m);
        if slot < s {
          assert Rows()[Offset(pages, page) + slot] == pages[page][slot];
          KeyAgainst(key, Rows()[i], m, pages[page][slot]);
        }
      }
    }

    /** Where a row with key m can be, if the rows in use before position k are less and row k is not. */
    lemma PlaceOfUsed(m: Record, k: nat)
      requires Valid() && k <= |Rows()| && UsedLess(m, k) && (k < |Rows()| ==> !KeyLess(key, Rows()[k], m))
      ensures forall i: nat | i < |Rows()| && SameKey(key, Rows()[i], m) && Rows()[i].used :: i == k
    {
      hide KeyLess, Flat;
      forall i: nat | i < |Rows()| && SameKey(key, Rows()[i], m) && Rows()[i].used ensures i == k {
        KeyLessTotal(key, Rows()[i], m);
        if k < i { KeyAgainst(key, Rows()[i], m, Rows()[k]); }
      }
    }

    ghost predicate UsedLess(m: Record, n: nat) {
      forall i | 0 <= i < n && i < |Rows()| && Rows()[i].used :: KeyLess(key, Rows()[i], m)
    }

    /** find_with_index for a table of one data page: a linear search for the first row in use that is not less. */
    method FindByScan(m: Record) returns (r: Option<Record>, ghost k: nat)
      requires Valid()
      ensures r.Some? ==> k < |Rows()| && Rows()[k] == r.value && SameKey(key, r.value, m) && r.value.used
      ensures r.None? ==> forall i | 0 <= i < |Rows()| && SameKey(key, Rows()[i], m) :: !Rows()[i].used
    {
      hide Flat, KeyLess, SameKey, Sorted, RootOk;
      k := 0;
      OffsetZero(pages);
      var page := 0;
      while page < |pages|
        invariant page <= |pages| && Offset(pages, page) <= |Rows()| && UsedLess(m, Offset(pages, page))
        modifies {}
      {
        FlatPage(pages, page);
        var slot := 0;
        while slot < |pages[page]|
          invariant slot <= |pages[page]| && UsedLess(m, Offset(pages, page) + slot)
          modifies {}
        {
          var p := pages[page][slot];
          RowAt(Pos(page, slot));
          if p.used && !KeyLess(key, p, m) {
            k := Offset(pages, page) + slot;
            PlaceOfUsed(m, k);
            if SameKey(key, p, m) {
              return Some(p), k;
            }
            return None, 0;
          }
          slot := slot + 1;
        }
        page := page + 1;
      }
      assert pages[..page] == pages;
      PlaceOfUsed(m, |Rows()|);
      return None, 0;
    }
  }
}
