/** Bytes and the small arithmetic shared by every layer of the stack. */
module Bytes {
  type byte = b: int | 0 <= b < 256

  datatype Option<+T> = None | Some(value: T)

  function Min(a: nat, b: nat): nat {
    if a <= b then a else b
  }

  function Max(a: nat, b: nat): nat {
    if a <= b then b else a
  }

  function Pow2(n: nat): (r: nat)
    ensures r > 0
  {
    if n == 0 then 1 else 2 * Pow2(n - 1)
  }

  /** The positions `lo, lo + 1, ..., hi - 1`. */
  ghost function Range(lo: nat, hi: nat): (r: set<nat>)
    ensures forall p: nat :: p in r <==> lo <= p < hi
  {
    set p: nat | lo <= p < hi && Between(lo, p, hi)
  }

  predicate Between(lo: nat, p: nat, hi: nat) {
    lo <= p < hi
  }

  lemma {:induction false} RangeSize(lo: nat, hi: nat)
    requires lo <= hi
    ensures |Range(lo, hi)| == hi - lo
    decreases hi - lo
  {
    if lo == hi {
      assert Range(lo, hi) == {};
    } else {
      RangeSize(lo, hi - 1);
      assert Range(lo, hi) == Range(lo, hi - 1) + {hi - 1};
    }
  }

  lemma {:induction false} SubsetSize<T>(a: set<T>, b: set<T>)
    requires a <= b
    ensures |a| <= |b|
    ensures |a| == |b| ==> a == b
  {
    assert b == a + (b - a);
    assert |b| == |a| + |b - a|;
  }

  /** A set split, point by point, into a part and a range. */
  lemma SplitSize(whole: set<nat>, rest: set<nat>, range: set<nat>, lo: nat, hi: nat)
    requires lo <= hi && range == Range(lo, hi)
    requires forall p: nat :: p in whole <==> p in rest || p in range
    requires forall p: nat :: !(p in rest && p in range)
    ensures |whole| == |rest| + (hi - lo)
  {
    assert whole == rest + range;
    RangeSize(lo, hi);
  }

  /** Two ways of splitting the same set give the same sum of sizes. */
  lemma UnionSizes(rest: set<nat>, lo: nat, hi: nat, a: set<nat>, b: set<nat>, whole: set<nat>)
    requires lo <= hi && whole == rest + Range(lo, hi)
    requires forall p: nat :: !(p in rest && p in Range(lo, hi))
    requires forall p: nat :: p in whole <==> p in a || p in b
    requires forall p: nat :: !(p in a && p in b)
    ensures |rest| + (hi - lo) == |a| + |b|
  {
    SplitSize(whole, rest, Range(lo, hi), lo, hi);
    assert whole == a + b;
  }

  /** Dividing twice is dividing by the product. */
  lemma NestedQuotient(v: nat, c: nat, p: nat)
    requires c > 0 && p > 0
    ensures c * p > 0 && v / c / p == v / (c * p)
  {
    var q, r := v / c / p, v / c % p;
    assert v == (q * p + r) * c + v % c;
    assert v == q * (c * p) + (r * c + v % c);
    MultiplesApart(p, r, c);
    QuotientIs(v, c * p, q, r * c + v % c);
  }

  lemma QuotientIs(a: nat, d: nat, q: nat, r: nat)
    requires d > 0 && r < d && a == q * d + r
    ensures a / d == q && a % d == r
  {
    var p := a / d;
    assert a == p * d + a % d;
    if p > q {
      MultiplesApart(p, q, d);
    } else if p < q {
      MultiplesApart(q, p, d);
    }
  }

  lemma MultiplesApart(p: nat, q: nat, d: nat)
    requires p > q
    ensures p * d >= q * d + d
  {
    assert p * d == q * d + d + (p - q - 1) * d;
  }
}
