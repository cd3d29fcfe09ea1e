/** Small shared vocabulary: an optional value, sums and maxima over
    sequences, duplicate-freedom and the index range 0..n-1. */
module Common {

  /** Python's `None` / a present value. */
  datatype Option<+T> = None | Some(value: T)

  /** Sum of a sequence of reals (`sum(...)` / the numerator of `np.mean`). */
  function Sum(xs: seq<real>): real
  {
    if |xs| == 0 then 0.0 else xs[0] + Sum(xs[1..])
  }

  /** A sum of values that all lie in [lo, hi] lies in [|xs|*lo, |xs|*hi]. */
  lemma {:induction false} SumBounds(xs: seq<real>, lo: real, hi: real)
    requires forall i :: 0 <= i < |xs| ==> lo <= xs[i] <= hi
    ensures (|xs| as real) * lo <= Sum(xs) <= (|xs| as real) * hi
  {
    if |xs| > 0 {
      SumBounds(xs[1..], lo, hi);
    }
  }

  /** The mean of values that all lie in [lo, hi] lies in [lo, hi]. */
  lemma MeanBounds(xs: seq<real>, lo: real, hi: real)
    requires |xs| > 0
    requires forall i :: 0 <= i < |xs| ==> lo <= xs[i] <= hi
    ensures lo <= Sum(xs) / (|xs| as real) <= hi
  {
    SumBounds(xs, lo, hi);
    DivideBounds(Sum(xs), |xs| as real, lo, hi);
  }

  lemma DivideBounds(a: real, b: real, lo: real, hi: real)
    requires b > 0.0 && b * lo <= a <= b * hi
    ensures lo <= a / b <= hi
  {
  }

  /** Summing two sequences pointwise ordered keeps the order. */
  lemma {:induction false} SumMonotone(xs: seq<real>, ys: seq<real>)
    requires |xs| == |ys|
    requires forall i :: 0 <= i < |xs| ==> xs[i] <= ys[i]
    ensures Sum(xs) <= Sum(ys)
  {
    if |xs| > 0 {
      SumMonotone(xs[1..], ys[1..]);
    }
  }

  /** Sum of an integer-valued function over the elements of a sequence. */
  function SumBy<T>(xs: seq<T>, f: T -> int): int
  {
    if |xs| == 0 then 0 else f(xs[0]) + SumBy(xs[1..], f)
  }

  lemma {:induction false} SumByConcat<T>(a: seq<T>, b: seq<T>, f: T -> int)
    ensures SumBy(a + b, f) == SumBy(a, f) + SumBy(b, f)
  {
    if |a| > 0 {
      assert (a + b)[1..] == a[1..] + b;
      SumByConcat(a[1..], b, f);
    } else {
      assert a + b == b;
    }
  }

  /** Removing the element at position k removes one copy of it. */
  lemma RemoveAtMultiset<T>(b: seq<T>, k: nat)
    requires k < |b|
    ensures multiset(b[..k] + b[k + 1..]) == multiset(b) - multiset{b[k]}
  {
    assert b == b[..k] + [b[k]] + b[k + 1..];
  }

  /** Removing the term at position k removes exactly its value from the sum. */
  lemma SumByRemoveAt<T>(b: seq<T>, k: nat, f: T -> int)
    requires k < |b|
    ensures SumBy(b, f) == f(b[k]) + SumBy(b[..k] + b[k + 1..], f)
  {
    SumByConcat(b[..k], b[k + 1..], f);
    SumByConcat(b[..k], [b[k]] + b[k + 1..], f);
    assert ([b[k]] + b[k + 1..])[1..] == b[k + 1..];
    assert b[..k] + ([b[k]] + b[k + 1..]) == b;
  }

  /** Taking the head off a and one of its occurrences out of b keeps
      equal multisets equal. */
  lemma TailSameMultiset<T>(a: seq<T>, b: seq<T>, k: nat)
    requires |a| > 0 && k < |b| && b[k] == a[0]
    requires multiset(a) == multiset(b)
    ensures multiset(a[1..]) == multiset(b[..k] + b[k + 1..])
  {
    assert a == [a[0]] + a[1..];
    assert multiset(a[1..]) == multiset(a) - multiset{a[0]};
    RemoveAtMultiset(b, k);
  }

  /** A sum does not depend on the order of its terms. */
  lemma {:induction false} SumByPermutation<T>(a: seq<T>, b: seq<T>, f: T -> int)
    requires multiset(a) == multiset(b)
    ensures SumBy(a, f) == SumBy(b, f)
  {
    if |a| > 0 {
      assert a[0] in multiset(b);
      var k :| 0 <= k < |b| && b[k] == a[0];
      TailSameMultiset(a, b, k);
      SumByPermutation(a[1..], b[..k] + b[k + 1..], f);
      SumByRemoveAt(b, k, f);
    } else {
      assert |b| == |multiset(b)| == 0;
    }
  }

  /** Each term between lo and hi bounds the sum between |xs|*lo and |xs|*hi. */
  lemma {:induction false} SumByBounds<T>(xs: seq<T>, f: T -> int, lo: int, hi: int)
    requires forall i :: 0 <= i < |xs| ==> lo <= f(xs[i]) <= hi
    ensures |xs| * lo <= SumBy(xs, f) <= |xs| * hi
  {
    if |xs| > 0 {
      SumByBounds(xs[1..], f, lo, hi);
    }
  }

  /** The largest element of a non-empty sequence (Python's `max`). */
  function MaxOf(xs: seq<nat>): (r: nat)
    requires |xs| > 0
    ensures r in xs
    ensures forall i :: 0 <= i < |xs| ==> xs[i] <= r
  {
    if |xs| == 1 then xs[0]
    else
      var m := MaxOf(xs[1..]);
      if xs[0] >= m then xs[0] else m
  }

  /** The position of a `(key, position)` entry, as an integer term. */
  function PositionOf<K>(entry: (K, nat)): int { entry.1 }

  /** The positions of `(key, position)` entries, in order (`dict.values()`). */
  function PositionList<K>(entries: seq<(K, nat)>): (ps: seq<nat>)
    ensures |ps| == |entries|
    ensures forall i :: 0 <= i < |entries| ==> ps[i] == entries[i].1
  {
    seq(|entries|, i requires 0 <= i < |entries| => entries[i].1)
  }

  predicate Distinct<T(==)>(s: seq<T>)
  {
    forall i, j :: 0 <= i < j < |s| ==> s[i] != s[j]
  }

  /** The elements of a sequence form a set no larger than the sequence,
      and exactly as large when the sequence is duplicate-free. */
  lemma {:induction false} CardOfElements<T>(s: seq<T>)
    ensures |set x | x in s| <= |s|
    ensures Distinct(s) ==> |set x | x in s| == |s|
  {
    if |s| > 0 {
      CardOfElements(s[1..]);
      assert (set x | x in s) == {s[0]} + (set x | x in s[1..]);
      if Distinct(s) {
        assert s[0] !in s[1..];
      }
    }
  }

  /** The indices 0, 1, ..., n-1 in ascending order (`range(n)`). */
  function Range(n: nat): (r: seq<nat>)
    ensures |r| == n
    ensures forall i :: 0 <= i < n ==> r[i] == i
  {
    seq(n, i => i)
  }

  predicate StrictlyIncreasing(s: seq<nat>)
  {
    forall i, j :: 0 <= i < j < |s| ==> s[i] < s[j]
  }
}
