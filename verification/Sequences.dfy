/** Sequences without repetitions, as the abstract value of a linked list. */
module Sequences {
  ghost predicate Distinct(s: seq<nat>) {
    forall i, j | 0 <= i < j < |s| :: s[i] != s[j]
  }

  ghost function Elems(s: seq<nat>): set<nat> {
    set x | x in s
  }

  function Without(s: seq<nat>, k: nat): seq<nat>
    requires k < |s|
  {
    s[..k] + s[k + 1..]
  }

  /** Where the member at position l of the shorter sequence was. */
  function Skip(k: nat, l: nat): nat { if l < k then l else l + 1 }

  lemma WithoutLength(s: seq<nat>, k: nat)
    requires k < |s|
    ensures |Without(s, k)| == |s| - 1
  {
  }

  lemma WithoutAt(s: seq<nat>, k: nat, l: nat)
    requires k < |s| && l < |s| - 1
    ensures |Without(s, k)| == |s| - 1 && Without(s, k)[l] == s[Skip(k, l)]
  {
  }

  lemma WithoutMembers(s: seq<nat>, k: nat)
    requires Distinct(s) && k < |s|
    ensures Distinct(Without(s, k))
    ensures forall i :: i in Without(s, k) <==> i in s && i != s[k]
  {
    var t := Without(s, k);
    forall i ensures i in t <==> i in s && i != s[k] {
      if i in s && i != s[k] {
        var j :| 0 <= j < |s| && s[j] == i;
        assert i == t[if j < k then j else j - 1];
      }
    }
  }

  /** s without its first occurrence of x. */
  function Minus(s: seq<nat>, x: nat): seq<nat> {
    if s == [] then [] else if s[0] == x then s[1..] else [s[0]] + Minus(s[1..], x)
  }

  lemma {:induction false} MinusAt(s: seq<nat>, k: nat)
    requires Distinct(s) && k < |s|
    ensures Minus(s, s[k]) == Without(s, k)
  {
    if k > 0 {
      MinusAt(s[1..], k - 1);
      assert s[0] != s[k];
      assert Without(s, k) == [s[0]] + Without(s[1..], k - 1);
    }
  }

  lemma {:induction false} MinusAbsent(s: seq<nat>, x: nat)
    requires x !in s
    ensures Minus(s, x) == s
  {
    if s != [] { MinusAbsent(s[1..], x); }
  }

  lemma MinusMembers(s: seq<nat>, x: nat)
    requires Distinct(s)
    ensures Distinct(Minus(s, x))
    ensures forall i :: i in Minus(s, x) <==> i in s && i != x
    ensures |Minus(s, x)| == |s| - if x in s then 1 else 0
  {
    if x in s {
      var k :| 0 <= k < |s| && s[k] == x;
      MinusAt(s, k);
      WithoutMembers(s, k);
    } else {
      MinusAbsent(s, x);
    }
  }

  lemma {:induction false} ElemsCard(s: seq<nat>)
    requires Distinct(s)
    ensures |Elems(s)| == |s|
  {
    if s != [] {
      var n := |s| - 1;
      ElemsCard(s[..n]);
      assert Elems(s) == Elems(s[..n]) + {s[n]};
    }
  }

  lemma SplitDistinct(s: seq<nat>, n: nat)
    requires Distinct(s) && n < |s|
    ensures Distinct(s[..n]) && Distinct(s[n..])
  {
  }

  lemma JoinDistinct(s: seq<nat>, t: seq<nat>)
    requires Distinct(s) && Distinct(t) && forall x | x in s :: x !in t
    ensures Distinct(s + t)
  {
    var u := s + t;
    forall i, j | 0 <= i < j < |u| ensures u[i] != u[j] {
      if i < |s| <= j { assert u[i] in s && u[j] in t; }
    }
  }

  lemma PartsDistinct(s: seq<nat>, t: seq<nat>)
    requires Distinct(s + t)
    ensures Distinct(s) && Distinct(t) && forall x | x in s :: x !in t
  {
    forall i | 0 <= i < |s| ensures s[i] == (s + t)[i] {}
    forall j | 0 <= j < |t| ensures t[j] == (s + t)[|s| + j] {}
  }
}
