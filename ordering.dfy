/**
 * The key orders pandas sorts group keys by: strings by code point, dates
 * chronologically, and compound keys lexicographically.
 */
module Ordering {
  import opened Calendar

  ghost predicate StrictTotalOrder<K(!new)>(lt: (K, K) -> bool)
  {
    && (forall a :: !lt(a, a))
    && (forall a, b, c :: lt(a, b) && lt(b, c) ==> lt(a, c))
    && (forall a, b :: a != b ==> lt(a, b) || lt(b, a))
  }

  /** Python's `str` ordering: lexicographic by character code. */
  predicate StrLt(a: string, b: string)
  {
    if a == [] then b != []
    else if b == [] then false
    else if a[0] != b[0] then a[0] < b[0]
    else StrLt(a[1..], b[1..])
  }

  /** The order of (Blood Type, Admission Type) group keys. */
  predicate PairLt(a: (string, string), b: (string, string))
  {
    StrLt(a.0, b.0) || (a.0 == b.0 && StrLt(a.1, b.1))
  }

  /** The order of (month label, Medical Condition) group keys. */
  predicate MonthKeyLt(a: (CivilDate, string), b: (CivilDate, string))
  {
    Before(a.0, b.0) || (a.0 == b.0 && StrLt(a.1, b.1))
  }

  lemma {:induction false} StrLtIrreflexive(a: string)
    ensures !StrLt(a, a)
  {
    if a != [] {
      StrLtIrreflexive(a[1..]);
    }
  }

  lemma {:induction false} StrLtTransitive(a: string, b: string, c: string)
    requires StrLt(a, b) && StrLt(b, c)
    ensures StrLt(a, c)
  {
    if a != [] && b != [] && c != [] && a[0] == b[0] == c[0] {
      StrLtTransitive(a[1..], b[1..], c[1..]);
    }
  }

  lemma {:induction false} StrLtTotal(a: string, b: string)
    requires a != b
    ensures StrLt(a, b) || StrLt(b, a)
  {
    if a != [] && b != [] && a[0] == b[0] {
      assert a == [a[0]] + a[1..] && b == [b[0]] + b[1..];
      StrLtTotal(a[1..], b[1..]);
    }
  }

  lemma StrLtIsStrictTotalOrder()
    ensures StrictTotalOrder(StrLt)
  {
    forall a | true ensures !StrLt(a, a) { StrLtIrreflexive(a); }
    forall a, b, c | StrLt(a, b) && StrLt(b, c) ensures StrLt(a, c) { StrLtTransitive(a, b, c); }
    forall a, b | a != b ensures StrLt(a, b) || StrLt(b, a) { StrLtTotal(a, b); }
  }

  lemma PairLtIsStrictTotalOrder()
    ensures StrictTotalOrder(PairLt)
  {
    StrLtIsStrictTotalOrder();
  }

  lemma MonthKeyLtIsStrictTotalOrder()
    ensures StrictTotalOrder(MonthKeyLt)
  {
    StrLtIsStrictTotalOrder();
    forall a: (CivilDate, string), b: (CivilDate, string) | a != b
      ensures MonthKeyLt(a, b) || MonthKeyLt(b, a)
    {
      if a.0 == b.0 {
        assert a.1 != b.1;
      }
    }
  }
}
