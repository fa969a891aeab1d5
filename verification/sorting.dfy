/** A stable sort into descending order of an integer key, the shape of
    `array.sort((a, b) => key(b) - key(a))` on an engine whose sort is stable. */
module Sorting {
  import opened Common

  predicate SortedDesc<T>(xs: seq<T>, key: T -> int) {
    forall i, j :: 0 <= i < j < |xs| ==> key(xs[i]) >= key(xs[j])
  }

  /** No two elements share a value of `f`. */
  ghost predicate DistinctBy<T, K>(xs: seq<T>, f: T -> K) {
    forall i, j :: 0 <= i < j < |xs| ==> f(xs[i]) != f(xs[j])
  }

  /** Insert `x` before the first element whose key is not larger, so that
      it stays ahead of the later elements with an equal key. */
  function InsertDesc<T>(x: T, xs: seq<T>, key: T -> int): (r: seq<T>)
    requires SortedDesc(xs, key)
    ensures SortedDesc(r, key)
    ensures multiset(r) == multiset(xs) + multiset{x}
  {
    if xs == [] then [x]
    else if key(xs[0]) <= key(x) then
      SortedBelowHead(xs, key);
      ConsSorted(x, xs, key);
      [x] + xs
    else
      var rest := InsertDesc(x, xs[1..], key);
      SortedBelowHead(xs, key);
      MultisetMembers(rest, xs[1..], x);
      ConsSorted(xs[0], rest, key);
      assert xs == [xs[0]] + xs[1..];
      [xs[0]] + rest
  }

  /** In a descending list nothing is above the head. */
  lemma SortedBelowHead<T>(xs: seq<T>, key: T -> int)
    requires xs != [] && SortedDesc(xs, key)
    ensures forall y :: y in xs ==> key(y) <= key(xs[0])
    ensures forall y :: y in xs[1..] ==> key(y) <= key(xs[0])
  {
    forall y | y in xs ensures key(y) <= key(xs[0]) {
      var k :| 0 <= k < |xs| && xs[k] == y;
    }
    forall y | y in xs[1..] ensures key(y) <= key(xs[0]) {
      assert y in xs;
    }
  }

  /** A head at least every key of a descending tail gives a descending list. */
  lemma ConsSorted<T>(h: T, ys: seq<T>, key: T -> int)
    requires SortedDesc(ys, key)
    requires forall y :: y in ys ==> key(y) <= key(h)
    ensures SortedDesc([h] + ys, key)
  {
    var r := [h] + ys;
    forall i, j | 0 <= i < j < |r| ensures key(r[i]) >= key(r[j]) {
      assert r[j] == ys[j - 1];
      if i == 0 {
        assert ys[j - 1] in ys;
      } else {
        assert r[i] == ys[i - 1];
      }
    }
  }

  /** Lists with the same multiset have the same members. */
  lemma MultisetSameMembers<T>(a: seq<T>, b: seq<T>)
    requires multiset(a) == multiset(b)
    ensures forall t :: t in a <==> t in b
  {
    forall t ensures t in a <==> t in b {
      assert t in a <==> t in multiset(a);
      assert t in b <==> t in multiset(b);
    }
  }

  /** Every element of a list with one element added is that element or an old one. */
  lemma MultisetMembers<T>(r: seq<T>, xs: seq<T>, x: T)
    requires multiset(r) == multiset(xs) + multiset{x}
    ensures forall y :: y in r ==> y == x || y in xs
  {
    forall y | y in r ensures y == x || y in xs {
      assert y in multiset(r);
    }
  }

  function SortDesc<T>(xs: seq<T>, key: T -> int): (r: seq<T>)
    ensures SortedDesc(r, key)
    ensures multiset(r) == multiset(xs)
    ensures |r| == |xs|
  {
    if xs == [] then []
    else
      assert xs == [xs[0]] + xs[1..];
      var r := InsertDesc(xs[0], SortDesc(xs[1..], key), key);
      assert |r| == |multiset(r)|;
      r
  }

  lemma {:induction false} InsertDescSum<T>(x: T, xs: seq<T>, key: T -> int, f: T -> int)
    requires SortedDesc(xs, key)
    ensures SumBy(InsertDesc(x, xs, key), f) == f(x) + SumBy(xs, f)
  {
    if xs != [] && key(xs[0]) > key(x) {
      InsertDescSum(x, xs[1..], key, f);
    }
  }

  /** Sorting does not change a sum over the elements. */
  lemma {:induction false} SortDescSum<T>(xs: seq<T>, key: T -> int, f: T -> int)
    ensures SumBy(SortDesc(xs, key), f) == SumBy(xs, f)
  {
    if xs != [] {
      SortDescSum(xs[1..], key, f);
      InsertDescSum(xs[0], SortDesc(xs[1..], key), key, f);
    }
  }

  lemma ConsDistinct<T, K>(y: T, ys: seq<T>, f: T -> K)
    requires DistinctBy(ys, f)
    requires forall z :: z in ys ==> f(z) != f(y)
    ensures DistinctBy([y] + ys, f)
  {
    var r := [y] + ys;
    forall i, j | 0 <= i < j < |r| ensures f(r[i]) != f(r[j]) {
      assert r[j] == ys[j - 1];
      if i == 0 {
        assert ys[j - 1] in ys;
      } else {
        assert r[i] == ys[i - 1];
      }
    }
  }

  lemma TailDistinct<T, K>(xs: seq<T>, f: T -> K)
    requires xs != [] && DistinctBy(xs, f)
    ensures DistinctBy(xs[1..], f)
    ensures forall z :: z in xs[1..] ==> f(z) != f(xs[0])
  {
    var tail := xs[1..];
    forall i, j | 0 <= i < j < |tail| ensures f(tail[i]) != f(tail[j]) {
      assert tail[i] == xs[i + 1] && tail[j] == xs[j + 1];
    }
    forall z | z in tail ensures f(z) != f(xs[0]) {
      var k :| 0 <= k < |tail| && tail[k] == z;
      assert tail[k] == xs[k + 1];
    }
  }

  lemma InsertDescMembers<T>(x: T, xs: seq<T>, key: T -> int)
    requires SortedDesc(xs, key)
    ensures forall y :: y in InsertDesc(x, xs, key) ==> y == x || y in xs
  {
    MultisetMembers(InsertDesc(x, xs, key), xs, x);
  }

  lemma {:induction false} InsertDescDistinct<T, K>(x: T, xs: seq<T>, key: T -> int, f: T -> K)
    requires SortedDesc(xs, key)
    requires DistinctBy(xs, f)
    requires forall y :: y in xs ==> f(y) != f(x)
    ensures DistinctBy(InsertDesc(x, xs, key), f)
  {
    if xs == [] || key(xs[0]) <= key(x) {
      ConsDistinct(x, xs, f);
    } else {
      var tail := xs[1..];
      TailDistinct(xs, f);
      assert forall y :: y in tail ==> y in xs;
      InsertDescDistinct(x, tail, key, f);
      var rest := InsertDesc(x, tail, key);
      InsertDescMembers(x, tail, key);
      assert xs[0] in xs;
      ConsDistinct(xs[0], rest, f);
    }
  }

  /** Sorting keeps values of `f` distinct. */
  lemma {:induction false} SortDescDistinct<T, K>(xs: seq<T>, key: T -> int, f: T -> K)
    requires DistinctBy(xs, f)
    ensures DistinctBy(SortDesc(xs, key), f)
  {
    if xs != [] {
      var tail := xs[1..];
      TailDistinct(xs, f);
      SortDescDistinct(tail, key, f);
      var sorted := SortDesc(tail, key);
      forall y | y in sorted ensures f(y) != f(xs[0]) {
        assert y in multiset(sorted);
        assert y in multiset(tail);
      }
      InsertDescDistinct(xs[0], sorted, key, f);
    }
  }
}
