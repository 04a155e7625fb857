/**
 Columns with missing entries, and the counting operations pandas offers
 on them: boolean-mask filtering, `value_counts()` and `groupby(...).size()`.
 Missing entries never form a group of their own and are never counted.
 */
module Counting {
  import opened Wrappers
  import opened Sorting

  /** A column whose entries may be missing (NaN). */
  type Series<K> = seq<Option<K>>

  /** The column `f` of a table, row by row. */
  function Column<T, K>(rows: seq<T>, f: T -> Option<K>): Series<K>
  {
    Image(rows, f)
  }

  /** `rows[mask]` for the mask `keep`: each row the mask holds of, as often as it occurs. */
  function Where<T(==,!new)>(rows: seq<T>, keep: T -> bool): (r: seq<T>)
    ensures forall x :: multiset(r)[x] == if keep(x) then multiset(rows)[x] else 0
    ensures forall x :: x in r <==> x in rows && keep(x)
  {
    if |rows| == 0 then []
    else
      var x := rows[|rows| - 1];
      assert rows == rows[..|rows| - 1] + [x];
      var kept := Where(rows[..|rows| - 1], keep);
      if keep(x) then kept + [x] else kept
  }

  /** Number of entries of `s` equal to `k`. */
  function Occurrences<K(==)>(s: Series<K>, k: K): nat
  {
    if |s| == 0 then 0
    else Occurrences(s[..|s| - 1], k) + (if s[|s| - 1] == Some(k) then 1 else 0)
  }

  /** Number of non-missing entries of `s` (pandas' `count()`). */
  function Present<K>(s: Series<K>): nat
  {
    if |s| == 0 then 0
    else Present(s[..|s| - 1]) + (if s[|s| - 1].Some? then 1 else 0)
  }

  predicate Observed<K(==)>(s: Series<K>, k: K)
  {
    Some(k) in s
  }

  predicate NoDup<K(==)>(ks: seq<K>)
  {
    forall i, j :: 0 <= i < j < |ks| ==> ks[i] != ks[j]
  }

  lemma ObservedSnoc<K>(s: Series<K>, k: K)
    requires |s| > 0
    ensures Observed(s, k) <==> Observed(s[..|s| - 1], k) || s[|s| - 1] == Some(k)
  {
    assert s == s[..|s| - 1] + [s[|s| - 1]];
  }

  /** A value occurs a positive number of times exactly when it is observed. */
  lemma {:induction false} OccurrencesPositive<K>(s: Series<K>, k: K)
    ensures Occurrences(s, k) > 0 <==> Observed(s, k)
  {
    if |s| > 0 {
      ObservedSnoc(s, k);
      OccurrencesPositive(s[..|s| - 1], k);
    }
  }

  /** A column with an observed value has a non-missing entry. */
  lemma {:induction false} ObservedIsPresent<K>(s: Series<K>, k: K)
    requires Observed(s, k)
    ensures Present(s) > 0
  {
    ObservedSnoc(s, k);
    if s[|s| - 1] != Some(k) {
      ObservedIsPresent(s[..|s| - 1], k);
    }
  }

  /** The observed values of `s`, once each, in order of first appearance. */
  function Distinct<K(==,!new)>(s: Series<K>): (ks: seq<K>)
    ensures NoDup(ks)
    ensures forall k :: k in ks <==> Observed(s, k)
  {
    if |s| == 0 then []
    else
      var ks := Distinct(s[..|s| - 1]);
      assert forall k :: Observed(s, k) <==> Observed(s[..|s| - 1], k) || s[|s| - 1] == Some(k) by {
        forall k ensures Observed(s, k) <==> Observed(s[..|s| - 1], k) || s[|s| - 1] == Some(k) {
          ObservedSnoc(s, k);
        }
      }
      match s[|s| - 1]
      case Some(k) => if k in ks then ks else ks + [k]
      case None => ks
  }

  /** One row of a count table: a group key and its number of rows. */
  datatype Bucket<K> = Bucket(key: K, count: nat)

  function KeyOf<K>(b: Bucket<K>): K
  {
    b.key
  }

  function CountOf<K>(b: Bucket<K>): int
  {
    b.count
  }

  function KeysOf<K>(t: seq<Bucket<K>>): seq<K>
  {
    Image(t, KeyOf)
  }

  function SumCounts<K>(t: seq<Bucket<K>>): int
  {
    SumBy(t, CountOf)
  }

  /** The occurrence count of each of `keys` in `s`, in the order of `keys`. */
  function Tally<K(==)>(s: Series<K>, keys: seq<K>): (t: seq<Bucket<K>>)
    ensures |t| == |keys|
    ensures forall i :: 0 <= i < |t| ==> t[i] == Bucket(keys[i], Occurrences(s, keys[i]))
  {
    if |keys| == 0 then []
    else [Bucket(keys[0], Occurrences(s, keys[0]))] + Tally(s, keys[1..])
  }

  /** Adding one entry to the column adds one to the total of its key, if listed. */
  lemma {:induction false} TallySnoc<K>(s: Series<K>, x: Option<K>, keys: seq<K>)
    requires NoDup(keys)
    ensures SumCounts(Tally(s + [x], keys))
         == SumCounts(Tally(s, keys)) + (if x.Some? && x.value in keys then 1 else 0)
  {
    assert (s + [x])[..|s|] == s;
    if |keys| > 0 {
      TallySnoc(s, x, keys[1..]);
      assert keys == [keys[0]] + keys[1..];
    }
  }

  /** Counting every key a column can hold, once each, counts its non-missing entries. */
  lemma {:induction false} TallyTotal<K>(s: Series<K>, keys: seq<K>)
    requires NoDup(keys)
    requires forall k :: Observed(s, k) ==> k in keys
    ensures SumCounts(Tally(s, keys)) == Present(s)
  {
    if |s| == 0 {
      TallyOfEmpty(s, keys);
    } else {
      var p := s[..|s| - 1];
      var x := s[|s| - 1];
      forall k | Observed(p, k) ensures k in keys {
        ObservedSnoc(s, k);
      }
      TallyTotal(p, keys);
      assert s == p + [x];
      TallySnoc(p, x, keys);
      if x.Some? {
        ObservedSnoc(s, x.value);
      }
    }
  }

  lemma {:induction false} TallyOfEmpty<K>(s: Series<K>, keys: seq<K>)
    requires |s| == 0
    ensures SumCounts(Tally(s, keys)) == 0
  {
    if |keys| > 0 {
      TallyOfEmpty(s, keys[1..]);
    }
  }

  /**
   `t` is a count table of `s`: one row per observed value, holding the
   number of its occurrences, and no other rows.
   */
  ghost predicate IsCountTable<K(!new)>(s: Series<K>, t: seq<Bucket<K>>)
  {
    && (forall i :: 0 <= i < |t| ==> 0 < t[i].count == Occurrences(s, t[i].key))
    && DistinctBy(t, KeyOf)
    && (forall k :: k in KeysOf(t) <==> Observed(s, k))
    && SumCounts(t) == Present(s)
  }

  /** A count table is empty exactly when the column has no value. */
  lemma CountTableEmpty<K(!new)>(s: Series<K>, t: seq<Bucket<K>>)
    requires IsCountTable(s, t)
    ensures t == [] <==> Present(s) == 0
  {
    if t != [] {
      assert t[0].key in KeysOf(t);
      ObservedIsPresent(s, t[0].key);
    }
  }

  /** The count table in order of first appearance. */
  function CountTable<K(==,!new)>(s: Series<K>): (t: seq<Bucket<K>>)
    ensures IsCountTable(s, t)
  {
    var keys := Distinct(s);
    var t := Tally(s, keys);
    assert KeysOf(t) == keys;
    forall i | 0 <= i < |t| ensures t[i].count > 0 {
      OccurrencesPositive(s, keys[i]);
    }
    TallyTotal(s, keys);
    t
  }

  /** Reordering a count table leaves it a count table. */
  lemma {:induction false} SortCountTable<K(!new)>(s: Series<K>, t: seq<Bucket<K>>, before: (Bucket<K>, Bucket<K>) -> bool)
    requires IsCountTable(s, t)
    ensures IsCountTable(s, Sort(t, before))
  {
    var r := Sort(t, before);
    assert forall b :: b in r <==> b in t by {
      forall b ensures b in r <==> b in t {
        assert b in r <==> b in multiset(r);
        assert b in t <==> b in multiset(t);
      }
    }
    ImageSameElements(r, t, KeyOf);
    forall i | 0 <= i < |r| ensures 0 < r[i].count == Occurrences(s, r[i].key) {
      assert r[i] in t;
    }
    SortDistinct(t, before, KeyOf);
    SortSum(t, before, CountOf);
  }

  predicate CountAtLeast<K>(a: Bucket<K>, b: Bucket<K>)
  {
    a.count >= b.count
  }

  /**
   `s.value_counts()`: the count table of the non-missing values, largest
   count first. Equal counts come in an order pandas leaves unspecified.
   */
  function ValueCounts<K(==,!new)>(s: Series<K>): (r: seq<Bucket<K>>)
    ensures IsCountTable(s, r)
    ensures forall i, j :: 0 <= i < j < |r| ==> r[i].count >= r[j].count
  {
    var t := CountTable(s);
    SortCountTable(s, t, CountAtLeast);
    assert TotalPreorder(CountAtLeast<K>);
    SortSorted(t, CountAtLeast);
    Sort(t, CountAtLeast)
  }

  /**
   `groupby(key).size()`: the count table of the non-missing keys, in
   ascending key order under `leq`.
   */
  function GroupSizes<K(==,!new)>(s: Series<K>, leq: (K, K) -> bool): (r: seq<Bucket<K>>)
    requires TotalPreorder(leq)
    ensures IsCountTable(s, r)
    ensures forall i, j :: 0 <= i < j < |r| ==> leq(r[i].key, r[j].key)
  {
    var t := CountTable(s);
    var before := (a: Bucket<K>, b: Bucket<K>) => leq(a.key, b.key);
    SortCountTable(s, t, before);
    assert TotalPreorder(before) by {
      forall a: Bucket<K>, b: Bucket<K> ensures before(a, b) || before(b, a) {
        assert leq(a.key, b.key) || leq(b.key, a.key);
      }
      forall a: Bucket<K>, b: Bucket<K>, c: Bucket<K> | before(a, b) && before(b, c)
        ensures before(a, c)
      {
        assert leq(a.key, b.key) && leq(b.key, c.key);
      }
    }
    SortSorted(t, before);
    Sort(t, before)
  }

  /** A value kept by `head(n)` is at least as frequent as one it drops. */
  lemma {:induction false} HeadDominates<K(!new)>(s: Series<K>, counts: seq<Bucket<K>>, n: nat, b: K, c: K)
    requires IsCountTable(s, counts)
    requires forall i, j :: 0 <= i < j < |counts| ==> counts[i].count >= counts[j].count
    requires n <= |counts|
    requires b in KeysOf(counts[..n]) && c !in KeysOf(counts[..n])
    ensures Occurrences(s, b) >= Occurrences(s, c)
  {
    var i :| 0 <= i < n && KeysOf(counts[..n])[i] == b;
    assert counts[i].key == b;
    if Observed(s, c) {
      var j :| 0 <= j < |counts| && KeysOf(counts)[j] == c;
      assert j >= n;
      assert counts[j].key == c;
    } else {
      OccurrencesPositive(s, c);
    }
  }

  /**
   `s.value_counts().head(n).index`: at most `n` distinct observed values,
   all of them when there are fewer, and none rarer than a value left out.
   */
  function MostFrequent<K(==,!new)>(s: Series<K>, n: nat): (top: seq<K>)
    ensures |top| <= n
    ensures NoDup(top)
    ensures forall k :: k in top ==> Observed(s, k)
    ensures |top| < n ==> forall k :: Observed(s, k) ==> k in top
    ensures forall b, c :: b in top && c !in top ==> Occurrences(s, b) >= Occurrences(s, c)
  {
    var counts := ValueCounts(s);
    var m := if |counts| < n then |counts| else n;
    var top := KeysOf(counts[..m]);
    forall b, c | b in top && c !in top ensures Occurrences(s, b) >= Occurrences(s, c) {
      HeadDominates(s, counts, m, b, c);
    }
    assert forall i :: 0 <= i < m ==> top[i] == KeysOf(counts)[i];
    assert m < n ==> top == KeysOf(counts);
    top
  }

  function Identity<K>(k: K): K
  {
    k
  }

  /** Sorting a list of distinct values keeps them distinct and keeps the same values. */
  lemma SortKeepsNoDup<K>(ks: seq<K>, before: (K, K) -> bool)
    requires NoDup(ks)
    ensures NoDup(Sort(ks, before))
    ensures forall k :: k in Sort(ks, before) <==> k in ks
  {
    assert DistinctBy(ks, Identity);
    SortDistinct(ks, before, Identity);
    var r := Sort(ks, before);
    forall k ensures k in r <==> k in ks {
      assert k in r <==> k in multiset(r);
      assert k in ks <==> k in multiset(ks);
    }
  }

  /** A column with a non-missing entry has an observed value. */
  lemma {:induction false} PresentIsObserved<K>(s: Series<K>)
    requires Present(s) > 0
    ensures exists k :: Observed(s, k)
  {
    var x := s[|s| - 1];
    if x.Some? {
      ObservedSnoc(s, x.value);
    } else {
      PresentIsObserved(s[..|s| - 1]);
      var k :| Observed(s[..|s| - 1], k);
      ObservedSnoc(s, k);
    }
  }
}
