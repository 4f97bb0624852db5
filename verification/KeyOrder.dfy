/** The order of the clustered key, and the rows of a table on its pages. */
module KeyOrders {
  import opened Queries

  predicate SameKey(key: seq<KeyCol>, p: Record, q: Record) {
    forall k | 0 <= k < |key| :: Val(p, key[k].col) == Val(q, key[k].col)
  }

  /** The order of the clustered key: column by column, each in its own direction. */
  predicate KeyLess(key: seq<KeyCol>, p: Record, q: Record) {
    key != [] &&
    (ColLess(key[0].order, Val(p, key[0].col), Val(q, key[0].col))
     || (Val(p, key[0].col) == Val(q, key[0].col) && KeyLess(key[1..], p, q)))
  }

  lemma {:induction false} KeyLessTrans(key: seq<KeyCol>, p: Record, q: Record, r: Record)
    requires KeyLess(key, p, q) && KeyLess(key, q, r)
    ensures KeyLess(key, p, r)
  {
    if Val(p, key[0].col) == Val(q, key[0].col) == Val(r, key[0].col) { KeyLessTrans(key[1..], p, q, r); }
  }

  /** Of two rows exactly one is less, or they have the same key. */
  lemma {:induction false} KeyLessTotal(key: seq<KeyCol>, p: Record, q: Record)
    ensures KeyLess(key, p, q) ==> !KeyLess(key, q, p) && !SameKey(key, p, q)
    ensures KeyLess(key, p, q) || KeyLess(key, q, p) || SameKey(key, p, q)
  {
    if key != [] {
      KeyLessTotal(key[1..], p, q);
      assert forall k | 1 <= k < |key| :: key[k] == key[1..][k - 1];
    }
  }

  /** A row is less exactly if it has the same values in the first columns and then a smaller one, or a greater one in a
      descending column. */
  lemma {:induction false} KeyLessIff(key: seq<KeyCol>, p: Record, q: Record)
    ensures KeyLess(key, p, q) <==> exists k :: 0 <= k < |key| && LessAt(key, p, q, k)
  {
    if key != [] {
      KeyLessIff(key[1..], p, q);
      if Val(p, key[0].col) == Val(q, key[0].col) {
        forall k | 0 <= k < |key| - 1 ensures LessAt(key[1..], p, q, k) <==> LessAt(key, p, q, k + 1) { LessShift(key, p, q, k); }
        if k :| 0 <= k < |key[1..]| && LessAt(key[1..], p, q, k) { assert LessAt(key, p, q, k + 1); }
        if k :| 0 <= k < |key| && LessAt(key, p, q, k) { assert LessAt(key[1..], p, q, k - 1); }
      } else {
        assert LessAt(key, p, q, 0) <==> KeyLess(key, p, q);
      }
    }
  }

  ghost predicate LessAt(key: seq<KeyCol>, p: Record, q: Record, k: nat)
    requires k < |key|
  {
    && (forall j | 0 <= j < k :: Val(p, key[j].col) == Val(q, key[j].col))
    && if key[k].order == ASC then Val(p, key[k].col) < Val(q, key[k].col) else Val(p, key[k].col) > Val(q, key[k].col)
  }

  lemma LessShift(key: seq<KeyCol>, p: Record, q: Record, k: nat)
    requires k + 1 < |key| && Val(p, key[0].col) == Val(q, key[0].col)
    ensures LessAt(key[1..], p, q, k) <==> LessAt(key, p, q, k + 1)
  {
    var rest := key[1..];
    assert forall j | 0 <= j < |rest| :: rest[j] == key[j + 1];
    if LessAt(rest, p, q, k) {
      forall j | 0 <= j < k + 1 ensures Val(p, key[j].col) == Val(q, key[j].col) {
        if j > 0 { assert rest[j - 1] == key[j]; }
      }
    }
  }

  /** The primary key is unique and the rows are in its order. */
  ghost predicate Sorted(key: seq<KeyCol>, rows: seq<Record>) {
    forall i, j | 0 <= i < j < |rows| :: KeyLess(key, rows[i], rows[j])
  }

  /** In key order the first column never goes back. */
  predicate Before(key: seq<KeyCol>, p: Record, v: int)
    requires key != []
  {
    ColLess(key[0].order, Val(p, key[0].col), v)
  }

  function Flat(pages: seq<seq<Record>>): seq<Record> {
    if pages == [] then [] else Flat(pages[..|pages| - 1]) + pages[|pages| - 1]
  }

  /** The rows on the pages before page i. */
  ghost function Offset(pages: seq<seq<Record>>, i: nat): nat
    requires i <= |pages|
  {
    |Flat(pages[..i])|
  }

  lemma OffsetZero(pages: seq<seq<Record>>)
    ensures Offset(pages, 0) == 0
  {
    assert pages[..0] == [];
  }

  lemma {:induction false} FlatPrefix(pages: seq<seq<Record>>, i: nat)
    requires i <= |pages|
    ensures Flat(pages[..i]) <= Flat(pages)
    ensures Offset(pages, i) <= |Flat(pages)|
  {
    if i < |pages| {
      FlatPrefix(pages[..|pages| - 1], i);
      assert pages[..|pages| - 1][..i] == pages[..i];
    } else {
      assert pages[..i] == pages;
    }
  }

  lemma FlatPage(pages: seq<seq<Record>>, i: nat)
    requires i < |pages|
    ensures Offset(pages, i + 1) == Offset(pages, i) + |pages[i]| <= |Flat(pages)|
    ensures forall s | 0 <= s < |pages[i]| :: Flat(pages)[Offset(pages, i) + s] == pages[i][s]
  {
    FlatNext(pages, i);
    FlatPrefix(pages, i + 1);
    hide Flat;
    PartAt(Flat(pages[..i]), pages[i], Flat(pages));
  }

  lemma FlatNext(pages: seq<seq<Record>>, i: nat)
    requires i < |pages|
    ensures Flat(pages[..i + 1]) == Flat(pages[..i]) + pages[i]
  {
    assert pages[..i + 1][..i] == pages[..i];
  }

  lemma PartAt(a: seq<Record>, b: seq<Record>, c: seq<Record>)
    requires a + b <= c
    ensures |a| + |b| <= |c| && forall s | 0 <= s < |b| :: c[|a| + s] == b[s]
  {
    forall s | 0 <= s < |b| ensures c[|a| + s] == b[s] { assert (a + b)[|a| + s] == b[s]; }
  }
}
