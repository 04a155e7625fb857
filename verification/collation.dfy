/**
 The orders pandas sorts group keys by: Python's comparison of `str`
 (code point by code point, a proper prefix first), of `int`, and of
 tuples (first component, then second).
 */
module Collation {
  import opened Sorting

  /** Python's `a <= b` on strings. */
  predicate StrLeq(a: string, b: string)
    decreases |a|
  {
    if |a| == 0 then true
    else if |b| == 0 then false
    else if a[0] != b[0] then a[0] < b[0]
    else StrLeq(a[1..], b[1..])
  }

  lemma {:induction false} StrLeqReflexive(a: string)
    ensures StrLeq(a, a)
    decreases |a|
  {
    if |a| > 0 {
      StrLeqReflexive(a[1..]);
    }
  }

  lemma {:induction false} StrLeqTotal(a: string, b: string)
    ensures StrLeq(a, b) || StrLeq(b, a)
    decreases |a|
  {
    if |a| > 0 && |b| > 0 && a[0] == b[0] {
      StrLeqTotal(a[1..], b[1..]);
    }
  }

  lemma {:induction false} StrLeqTransitive(a: string, b: string, c: string)
    requires StrLeq(a, b) && StrLeq(b, c)
    ensures StrLeq(a, c)
    decreases |a|
  {
    if |a| > 0 && a[0] == b[0] && b[0] == c[0] {
      StrLeqTransitive(a[1..], b[1..], c[1..]);
    }
  }

  lemma {:induction false} StrLeqAntisymmetric(a: string, b: string)
    requires StrLeq(a, b) && StrLeq(b, a)
    ensures a == b
    decreases |a|
  {
    if |a| > 0 {
      StrLeqAntisymmetric(a[1..], b[1..]);
      assert a == [a[0]] + a[1..] && b == [b[0]] + b[1..];
    }
  }

  /** String comparison ranks every pair of strings, consistently. */
  lemma StrLeqIsTotalPreorder()
    ensures TotalPreorder(StrLeq)
  {
    forall a, b ensures StrLeq(a, b) || StrLeq(b, a) {
      StrLeqTotal(a, b);
    }
    forall a, b, c | StrLeq(a, b) && StrLeq(b, c) ensures StrLeq(a, c) {
      StrLeqTransitive(a, b, c);
    }
  }

  predicate IntLeq(a: int, b: int)
  {
    a <= b
  }

  /** Python's `a <= b` on pairs of strings. */
  predicate PairLeq(a: (string, string), b: (string, string))
  {
    if a.0 == b.0 then StrLeq(a.1, b.1) else StrLeq(a.0, b.0)
  }

  lemma PairLeqIsTotalPreorder()
    ensures TotalPreorder(PairLeq)
  {
    forall a, b ensures PairLeq(a, b) || PairLeq(b, a) {
      StrLeqTotal(a.0, b.0);
      StrLeqTotal(a.1, b.1);
    }
    forall a, b, c | PairLeq(a, b) && PairLeq(b, c) ensures PairLeq(a, c) {
      if a.0 == b.0 && b.0 == c.0 {
        StrLeqTransitive(a.1, b.1, c.1);
      } else if a.0 == c.0 {
        StrLeqAntisymmetric(a.0, b.0);
      } else {
        StrLeqReflexive(b.0);
        StrLeqTransitive(a.0, b.0, c.0);
      }
    }
  }
}
