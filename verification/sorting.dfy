/**
 Insertion sort over sequences, parameterised by a "comes before" relation.
 It stands for the sorts pandas performs (group keys, `value_counts`,
 `sort_values`): the model fixes one order among the equal elements, and
 the contracts promise only what pandas promises, a sorted permutation.
 */
module Sorting {

  /** `before` is total and transitive: a ranking, possibly with ties. */
  ghost predicate TotalPreorder<T(!new)>(before: (T, T) -> bool)
  {
    && (forall a, b :: before(a, b) || before(b, a))
    && (forall a, b, c :: before(a, b) && before(b, c) ==> before(a, c))
  }

  predicate SortedBy<T>(s: seq<T>, before: (T, T) -> bool)
  {
    forall i, j :: 0 <= i < j < |s| ==> before(s[i], s[j])
  }

  /** No two elements of `s` have the same image under `f`. */
  predicate DistinctBy<T, K(==)>(s: seq<T>, f: T -> K)
  {
    forall i, j :: 0 <= i < j < |s| ==> f(s[i]) != f(s[j])
  }

  /** Sum of the weights `w` of the elements of `s`. */
  function SumBy<T>(s: seq<T>, w: T -> int): int
  {
    if |s| == 0 then 0 else w(s[0]) + SumBy(s[1..], w)
  }

  /** `f` applied to each element of `s`, in order. */
  function Image<T, U>(s: seq<T>, f: T -> U): (r: seq<U>)
    ensures |r| == |s|
    ensures forall i :: 0 <= i < |s| ==> r[i] == f(s[i])
  {
    seq(|s|, i requires 0 <= i < |s| => f(s[i]))
  }

  /** Two sequences with the same elements have the same images. */
  lemma ImageSameElements<T, U>(a: seq<T>, b: seq<T>, f: T -> U)
    requires forall x :: x in a <==> x in b
    ensures forall y :: y in Image(a, f) <==> y in Image(b, f)
  {
    forall y | y in Image(a, f) ensures y in Image(b, f) {
      var i :| 0 <= i < |a| && Image(a, f)[i] == y;
      assert a[i] in b;
      var j :| 0 <= j < |b| && b[j] == a[i];
      assert Image(b, f)[j] == y;
    }
    forall y | y in Image(b, f) ensures y in Image(a, f) {
      var i :| 0 <= i < |b| && Image(b, f)[i] == y;
      assert b[i] in a;
      var j :| 0 <= j < |a| && a[j] == b[i];
      assert Image(a, f)[j] == y;
    }
  }

  /** Totals of sequences that agree weight by weight are equal. */
  lemma {:induction false} SumByPointwise<T, U>(a: seq<T>, wa: T -> int, b: seq<U>, wb: U -> int)
    requires |a| == |b|
    requires forall i :: 0 <= i < |a| ==> wa(a[i]) == wb(b[i])
    ensures SumBy(a, wa) == SumBy(b, wb)
  {
    if |a| > 0 {
      SumByPointwise(a[1..], wa, b[1..], wb);
    }
  }

  /** Puts `x` in front of the first element it comes before. */
  function Insert<T(==)>(x: T, s: seq<T>, before: (T, T) -> bool): (r: seq<T>)
    ensures multiset(r) == multiset(s) + multiset{x}
  {
    if |s| == 0 || before(x, s[0]) then [x] + s
    else
      assert s == [s[0]] + s[1..];
      [s[0]] + Insert(x, s[1..], before)
  }

  function Sort<T(==)>(s: seq<T>, before: (T, T) -> bool): (r: seq<T>)
    ensures multiset(r) == multiset(s)
  {
    if |s| == 0 then []
    else
      assert s == [s[0]] + s[1..];
      Insert(s[0], Sort(s[1..], before), before)
  }

  lemma {:induction false} InsertSorted<T(!new)>(x: T, s: seq<T>, before: (T, T) -> bool)
    requires TotalPreorder(before)
    requires SortedBy(s, before)
    ensures SortedBy(Insert(x, s, before), before)
  {
    if |s| == 0 || before(x, s[0]) {
    } else {
      var tail := Insert(x, s[1..], before);
      InsertSorted(x, s[1..], before);
      assert before(s[0], x);
      forall y | y in tail
        ensures before(s[0], y)
      {
        assert y in multiset(tail);
        if y != x {
          assert y in s[1..];
        }
      }
    }
  }

  /** The sort produces an ordering consistent with `before`. */
  lemma {:induction false} SortSorted<T(!new)>(s: seq<T>, before: (T, T) -> bool)
    requires TotalPreorder(before)
    ensures SortedBy(Sort(s, before), before)
  {
    if |s| > 0 {
      SortSorted(s[1..], before);
      InsertSorted(s[0], Sort(s[1..], before), before);
    }
  }

  lemma {:induction false} InsertSum<T>(x: T, s: seq<T>, before: (T, T) -> bool, w: T -> int)
    ensures SumBy(Insert(x, s, before), w) == w(x) + SumBy(s, w)
  {
    if |s| == 0 || before(x, s[0]) {
      assert ([x] + s)[1..] == s;
    } else {
      InsertSum(x, s[1..], before, w);
      assert ([s[0]] + Insert(x, s[1..], before))[1..] == Insert(x, s[1..], before);
    }
  }

  /** Reordering does not change a total. */
  lemma {:induction false} SortSum<T>(s: seq<T>, before: (T, T) -> bool, w: T -> int)
    ensures SumBy(Sort(s, before), w) == SumBy(s, w)
  {
    if |s| > 0 {
      SortSum(s[1..], before, w);
      InsertSum(s[0], Sort(s[1..], before), before, w);
    }
  }

  lemma {:induction false} InsertDistinct<T, K>(x: T, s: seq<T>, before: (T, T) -> bool, f: T -> K)
    requires DistinctBy(s, f)
    requires forall y :: y in s ==> f(y) != f(x)
    ensures DistinctBy(Insert(x, s, before), f)
  {
    if |s| == 0 || before(x, s[0]) {
      var r := [x] + s;
      forall i, j | 0 <= i < j < |r|
        ensures f(r[i]) != f(r[j])
      {
        if i > 0 {
          assert r[i] == s[i - 1] && r[j] == s[j - 1];
        } else {
          assert r[j] in s;
        }
      }
    } else {
      var tail := Insert(x, s[1..], before);
      InsertDistinct(x, s[1..], before, f);
      var r := [s[0]] + tail;
      forall i, j | 0 <= i < j < |r|
        ensures f(r[i]) != f(r[j])
      {
        if i == 0 {
          var y := r[j];
          assert y in multiset(tail);
          if y != x {
            assert y in s[1..];
            var k :| 0 <= k < |s[1..]| && s[1..][k] == y;
            assert s[k + 1] == y;
          }
        } else {
          assert r[i] == tail[i - 1] && r[j] == tail[j - 1];
        }
      }
    }
  }

  /** Reordering keeps distinct keys distinct. */
  lemma {:induction false} SortDistinct<T, K>(s: seq<T>, before: (T, T) -> bool, f: T -> K)
    requires DistinctBy(s, f)
    ensures DistinctBy(Sort(s, before), f)
  {
    if |s| > 0 {
      var rest := Sort(s[1..], before);
      assert DistinctBy(s[1..], f) by {
        forall i, j | 0 <= i < j < |s[1..]|
          ensures f(s[1..][i]) != f(s[1..][j])
        {
          assert s[1..][i] == s[i + 1] && s[1..][j] == s[j + 1];
        }
      }
      SortDistinct(s[1..], before, f);
      forall y | y in rest
        ensures f(y) != f(s[0])
      {
        assert y in multiset(rest);
        assert y in s[1..];
        var k :| 0 <= k < |s[1..]| && s[1..][k] == y;
        assert s[k + 1] == y;
      }
      InsertDistinct(s[0], rest, before, f);
    }
  }
}
