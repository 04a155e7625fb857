/**
 `groupby(key)[value].agg(...)`: rows are grouped by a key column (rows
 with a missing key are dropped) and each group's value column is summed
 up in one pass. Missing values are skipped by `mean` and `std`, but still
 counted by `size`.
 */
module Grouping {
  import opened Wrappers
  import opened Sorting
  import opened Counting

  /** One row as a `groupby` sees it: its key and its measured value. */
  datatype Obs<K> = Obs(key: Option<K>, value: Option<int>)

  function ObsKey<K>(o: Obs<K>): Option<K>
  {
    o.key
  }

  function KeyColumn<K>(obs: seq<Obs<K>>): Series<K>
  {
    Column(obs, ObsKey)
  }

  /** The non-missing values of group `k`, in row order. */
  function ValuesOf<K(==)>(obs: seq<Obs<K>>, k: K): seq<int>
  {
    if |obs| == 0 then []
    else
      var o := obs[|obs| - 1];
      ValuesOf(obs[..|obs| - 1], k) + (if o.key == Some(k) && o.value.Some? then [o.value.value] else [])
  }

  function Sum(vs: seq<int>): int
  {
    if |vs| == 0 then 0 else Sum(vs[..|vs| - 1]) + vs[|vs| - 1]
  }

  function SumSquares(vs: seq<int>): int
  {
    if |vs| == 0 then 0 else SumSquares(vs[..|vs| - 1]) + vs[|vs| - 1] * vs[|vs| - 1]
  }

  function Min(vs: seq<int>): int
    requires |vs| > 0
  {
    if |vs| == 1 then vs[0]
    else var m := Min(vs[..|vs| - 1]); if vs[|vs| - 1] < m then vs[|vs| - 1] else m
  }

  function Max(vs: seq<int>): int
    requires |vs| > 0
  {
    if |vs| == 1 then vs[0]
    else var m := Max(vs[..|vs| - 1]); if vs[|vs| - 1] > m then vs[|vs| - 1] else m
  }

  /** The exact arithmetic mean; missing (NaN) for no values. */
  function Mean(vs: seq<int>): Option<real>
  {
    if |vs| == 0 then None else Some(Sum(vs) as real / |vs| as real)
  }

  /** Sum of the squared distances of the values from `m`. */
  function SquaredDeviations(vs: seq<int>, m: real): real
  {
    if |vs| == 0 then 0.0
    else
      var d := vs[|vs| - 1] as real - m;
      SquaredDeviations(vs[..|vs| - 1], m) + d * d
  }

  /** Sample variance (denominator n - 1); missing (NaN) for fewer than two values. */
  function SampleVariance(vs: seq<int>): Option<real>
  {
    if |vs| < 2 then None
    else Some(SquaredDeviations(vs, Sum(vs) as real / |vs| as real) / (|vs| - 1) as real)
  }

  /** Running aggregates of one group: rows, non-missing values, their sum and sum of squares. */
  datatype Acc = Acc(size: nat, n: nat, sum: int, sumSquares: int)

  const Empty := Acc(0, 0, 0, 0)

  /** The aggregates of a group after one more of its rows. */
  function Absorb(a: Acc, v: Option<int>): Acc
  {
    match v
    case None => a.(size := a.size + 1)
    case Some(x) => Acc(a.size + 1, a.n + 1, a.sum + x, a.sumSquares + x * x)
  }

  /** What the aggregates of group `k` are by definition. */
  function Summary<K(==)>(obs: seq<Obs<K>>, k: K): Acc
  {
    var vs := ValuesOf(obs, k);
    Acc(Occurrences(KeyColumn(obs), k), |vs|, Sum(vs), SumSquares(vs))
  }

  lemma {:induction false} ValuesAtMostSize<K>(obs: seq<Obs<K>>, k: K)
    ensures |ValuesOf(obs, k)| <= Occurrences(KeyColumn(obs), k)
  {
    if |obs| > 0 {
      ValuesAtMostSize(obs[..|obs| - 1], k);
      assert KeyColumn(obs)[..|obs| - 1] == KeyColumn(obs[..|obs| - 1]);
    }
  }

  /** A group nobody belongs to has empty aggregates. */
  lemma SummaryUnobserved<K>(obs: seq<Obs<K>>, k: K)
    requires !Observed(KeyColumn(obs), k)
    ensures Summary(obs, k) == Empty
  {
    OccurrencesPositive(KeyColumn(obs), k);
    ValuesAtMostSize(obs, k);
  }

  /** The last row changes the aggregates of its own group only, as `Absorb` says. */
  lemma SummarySnoc<K>(obs: seq<Obs<K>>, k: K)
    requires |obs| > 0
    ensures var o := obs[|obs| - 1];
      Summary(obs, k) == if o.key == Some(k) then Absorb(Summary(obs[..|obs| - 1], k), o.value)
                         else Summary(obs[..|obs| - 1], k)
  {
    var prefix := obs[..|obs| - 1];
    var o := obs[|obs| - 1];
    assert KeyColumn(obs)[..|obs| - 1] == KeyColumn(prefix);
    var col := KeyColumn(obs);
    assert Occurrences(col, k) == Occurrences(KeyColumn(prefix), k) + (if o.key == Some(k) then 1 else 0);
    var vs := ValuesOf(prefix, k);
    if o.key == Some(k) && o.value.Some? {
      var x := o.value.value;
      assert ValuesOf(obs, k) == vs + [x];
      assert (vs + [x])[..|vs|] == vs;
      assert Sum(vs + [x]) == Sum(vs) + x;
      assert SumSquares(vs + [x]) == SumSquares(vs) + x * x;
    } else {
      assert ValuesOf(obs, k) == vs;
    }
  }

  /**
   One pass over the rows, keeping running aggregates per key, yields the
   aggregates of every observed key and of no other.
   */
  function Accumulate<K(==,!new)>(obs: seq<Obs<K>>): (m: map<K, Acc>)
    ensures forall k :: k in m <==> Observed(KeyColumn(obs), k)
    ensures forall k :: k in m ==> m[k] == Summary(obs, k)
  {
    if |obs| == 0 then map[]
    else
      var prefix := obs[..|obs| - 1];
      var o := obs[|obs| - 1];
      var m := Accumulate(prefix);
      assert KeyColumn(obs)[..|obs| - 1] == KeyColumn(prefix);
      var m' := match o.key
        case None => m
        case Some(k) => m[k := Absorb(if k in m then m[k] else Empty, o.value)];
      assert forall k :: k in m' <==> Observed(KeyColumn(obs), k) by {
        forall k ensures k in m' <==> Observed(KeyColumn(obs), k) {
          ObservedSnoc(KeyColumn(obs), k);
        }
      }
      assert forall k :: k in m' ==> m'[k] == Summary(obs, k) by {
        forall k | k in m' ensures m'[k] == Summary(obs, k) {
          SummarySnoc(obs, k);
          if k !in m {
            SummaryUnobserved(prefix, k);
          }
        }
      }
      m'
  }

  function AccMean(a: Acc): Option<real>
  {
    if a.n == 0 then None else Some(a.sum as real / a.n as real)
  }

  /** Sample variance from the running sums: (n * sum of squares - sum^2) / (n * (n - 1)). */
  function AccVariance(a: Acc): Option<real>
  {
    if a.n < 2 then None
    else Some((a.n * a.sumSquares - a.sum * a.sum) as real / (a.n * (a.n - 1)) as real)
  }

  lemma MulLeft(c: nat, a: int, b: int)
    requires a <= b
    ensures c * a <= c * b
  {
  }

  lemma CastMul(a: int, b: int)
    ensures (a * b) as real == a as real * b as real
  {
  }

  lemma DivWithin(s: real, n: real, lo: real, hi: real)
    requires n > 0.0
    requires n * lo <= s <= n * hi
    ensures lo <= s / n <= hi
  {
    var q := s / n;
    assert q * n == s;
  }

  /** One more value within `[lo, hi]` keeps a sum of `k` values bounded by `k` times the extremes. */
  lemma BoundsStep(k: int, sum: int, plo: int, phi: int, lo: int, hi: int, x: int)
    requires k >= 1
    requires k * plo <= sum <= k * phi
    requires lo <= plo && phi <= hi && lo <= x <= hi
    ensures (k + 1) * lo <= sum + x <= (k + 1) * hi
  {
    MulLeft(k, phi, hi);
    MulLeft(k, lo, plo);
  }

  lemma {:induction false} SumWithinBounds(vs: seq<int>)
    requires |vs| > 0
    ensures |vs| * Min(vs) <= Sum(vs) <= |vs| * Max(vs)
  {
    var n := |vs|;
    if n == 1 {
      assert vs[..0] == [];
    } else {
      var p := vs[..n - 1];
      SumWithinBounds(p);
      assert Sum(vs) == Sum(p) + vs[n - 1];
      BoundsStep(n - 1, Sum(p), Min(p), Max(p), Min(vs), Max(vs), vs[n - 1]);
    }
  }

  /** A quotient of whole numbers bounded as `n * lo <= sum <= n * hi` lies in `[lo, hi]`. */
  lemma QuotientWithin(n: int, sum: int, lo: int, hi: int)
    requires n > 0
    requires n * lo <= sum <= n * hi
    ensures lo as real <= sum as real / n as real <= hi as real
  {
    CastMul(n, hi);
    CastMul(n, lo);
    DivWithin(sum as real, n as real, lo as real, hi as real);
  }

  /** A group's mean lies between its smallest and its largest value. */
  lemma MeanWithinRange(vs: seq<int>)
    requires |vs| > 0
    ensures Mean(vs).Some?
    ensures Min(vs) as real <= Mean(vs).value <= Max(vs) as real
  {
    SumWithinBounds(vs);
    QuotientWithin(|vs|, Sum(vs), Min(vs), Max(vs));
  }

  lemma {:induction false} SquaredDeviationsExpand(vs: seq<int>, m: real)
    ensures SquaredDeviations(vs, m)
         == SumSquares(vs) as real - 2.0 * m * Sum(vs) as real + |vs| as real * m * m
  {
    if |vs| > 0 {
      var p := vs[..|vs| - 1];
      var last := vs[|vs| - 1];
      var x := last as real;
      SquaredDeviationsExpand(p, m);
      CastMul(last, last);
      SquareExpand(x, m, |p| as real);
    }
  }

  lemma SquareExpand(x: real, m: real, k: real)
    ensures (x - m) * (x - m) == x * x - 2.0 * m * x + m * m
    ensures (k + 1.0) * m * m == k * m * m + m * m
  {
  }

  lemma {:induction false} SquaredDeviationsNonNegative(vs: seq<int>, m: real)
    ensures SquaredDeviations(vs, m) >= 0.0
  {
    if |vs| > 0 {
      SquaredDeviationsNonNegative(vs[..|vs| - 1], m);
    }
  }

  /** The algebra behind the one-pass variance formula. */
  lemma VarianceAlgebra(n: real, sum: real, squares: real, sd: real)
    requires n >= 2.0
    requires sd == squares - 2.0 * (sum / n) * sum + n * (sum / n) * (sum / n)
    ensures (n * squares - sum * sum) / (n * (n - 1.0)) == sd / (n - 1.0)
  {
    var m := sum / n;
    assert m * n == sum;
    assert n * m * m == sum * m;
    assert sd == squares - sum * m;
    assert n * squares - sum * sum == n * sd;
    var v := sd / (n - 1.0);
    assert v * (n - 1.0) == sd;
    assert v * (n * (n - 1.0)) == n * sd;
  }

  /**
   The one-pass formula over running sums gives the sample variance, which
   is never negative.
   */
  lemma VarianceFormula(n: int, sum: int, squares: int, sd: real)
    requires n >= 2
    requires var m := sum as real / n as real;
      sd == squares as real - 2.0 * m * sum as real + n as real * m * m
    ensures (n * squares - sum * sum) as real / (n * (n - 1)) as real == sd / (n - 1) as real
  {
    CastMul(n, squares);
    CastMul(sum, sum);
    CastMul(n, n - 1);
    VarianceAlgebra(n as real, sum as real, squares as real, sd);
  }

  /** The one-pass variance of `n` values whose squared deviations add up to `sd`. */
  lemma AccVarianceValue(size: nat, n: nat, sum: int, squares: int, sd: real)
    requires n >= 2
    requires var m := sum as real / n as real;
      sd == squares as real - 2.0 * m * sum as real + n as real * m * m
    ensures AccVariance(Acc(size, n, sum, squares)) == Some(sd / (n - 1) as real)
  {
    VarianceFormula(n, sum, squares, sd);
  }

  /** The one-pass formula over running sums gives the sample variance. */
  lemma {:induction false} AccVarianceIsSampleVariance(size: nat, vs: seq<int>)
    ensures AccVariance(Acc(size, |vs|, Sum(vs), SumSquares(vs))) == SampleVariance(vs)
  {
    if |vs| >= 2 {
      var m := Sum(vs) as real / |vs| as real;
      SquaredDeviationsExpand(vs, m);
      AccVarianceValue(size, |vs|, Sum(vs), SumSquares(vs), SquaredDeviations(vs, m));
    }
  }

  /** The sample variance is never negative. */
  lemma {:induction false} SampleVarianceNonNegative(vs: seq<int>)
    ensures SampleVariance(vs).Some? ==> SampleVariance(vs).value >= 0.0
  {
    if |vs| >= 2 {
      var m := Sum(vs) as real / |vs| as real;
      SquaredDeviationsNonNegative(vs, m);
      NonNegativeQuotient(SquaredDeviations(vs, m), (|vs| - 1) as real);
    }
  }

  /**
   The one-pass formula over running sums gives the sample variance, which
   is never negative.
   */
  lemma {:induction false} VarianceFromSums(size: nat, vs: seq<int>)
    ensures AccVariance(Acc(size, |vs|, Sum(vs), SumSquares(vs))) == SampleVariance(vs)
    ensures SampleVariance(vs).Some? ==> SampleVariance(vs).value >= 0.0
  {
    AccVarianceIsSampleVariance(size, vs);
    SampleVarianceNonNegative(vs);
  }

  lemma NonNegativeQuotient(a: real, b: real)
    requires a >= 0.0 && b > 0.0
    ensures a / b >= 0.0
  {
  }

  /** One row of a grouped table: a key and its group's aggregates. */
  datatype Group<K> = Group(key: K, acc: Acc)

  function GroupKey<K>(g: Group<K>): K
  {
    g.key
  }

  function GroupSize<K>(g: Group<K>): int
  {
    g.acc.size
  }

  /**
   `g` is the grouped table of `obs`: one row per observed key, holding
   that group's aggregates, and no other rows.
   */
  ghost predicate IsGroupTable<K(!new)>(obs: seq<Obs<K>>, g: seq<Group<K>>)
  {
    && (forall i :: 0 <= i < |g| ==> 0 < g[i].acc.size && g[i].acc == Summary(obs, g[i].key))
    && DistinctBy(g, GroupKey)
    && (forall k :: k in Image(g, GroupKey) <==> Observed(KeyColumn(obs), k))
    && SumBy(g, GroupSize) == Present(KeyColumn(obs))
  }

  /** The grouped table, groups in order of first appearance. */
  function Aggregate<K(==,!new)>(obs: seq<Obs<K>>): (g: seq<Group<K>>)
    ensures IsGroupTable(obs, g)
  {
    var m := Accumulate(obs);
    var col := KeyColumn(obs);
    var keys := Distinct(col);
    var g := seq(|keys|, i requires 0 <= i < |keys| => Group(keys[i], m[keys[i]]));
    GroupsOfKeys(obs, m, keys, g);
    g
  }

  /** The groups of a duplicate-free list of the observed keys form the grouped table. */
  lemma GroupsOfKeys<K(!new)>(obs: seq<Obs<K>>, m: map<K, Acc>, keys: seq<K>, g: seq<Group<K>>)
    requires forall k :: k in m ==> m[k] == Summary(obs, k)
    requires NoDup(keys)
    requires forall k :: k in keys <==> Observed(KeyColumn(obs), k)
    requires |g| == |keys|
    requires forall i :: 0 <= i < |g| ==> g[i].key == keys[i] && keys[i] in m && g[i].acc == m[keys[i]]
    ensures IsGroupTable(obs, g)
  {
    var col := KeyColumn(obs);
    assert Image(g, GroupKey) == keys;
    forall i | 0 <= i < |g| ensures 0 < g[i].acc.size {
      assert keys[i] in keys;
      OccurrencesPositive(col, keys[i]);
    }
    var t := Tally(col, keys);
    forall i | 0 <= i < |g| ensures GroupSize(g[i]) == CountOf(t[i]) {
      assert g[i].acc == Summary(obs, keys[i]);
    }
    SumByPointwise(g, GroupSize, t, CountOf);
    TallyTotal(col, keys);
  }

  /** Reordering a grouped table leaves it a grouped table. */
  lemma {:induction false} SortGroupTable<K(!new)>(obs: seq<Obs<K>>, g: seq<Group<K>>, before: (Group<K>, Group<K>) -> bool)
    requires IsGroupTable(obs, g)
    ensures IsGroupTable(obs, Sort(g, before))
  {
    var r := Sort(g, before);
    assert forall x :: x in r <==> x in g by {
      forall x ensures x in r <==> x in g {
        assert x in r <==> x in multiset(r);
        assert x in g <==> x in multiset(g);
      }
    }
    ImageSameElements(r, g, GroupKey);
    forall i | 0 <= i < |r| ensures 0 < r[i].acc.size && r[i].acc == Summary(obs, r[i].key) {
      assert r[i] in g;
    }
    SortDistinct(g, before, GroupKey);
    SortSum(g, before, GroupSize);
  }
}
