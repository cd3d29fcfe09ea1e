/** Python's `sorted(xs, key=k, reverse=True)` on integer keys: a stable
    sort into non-increasing key order. Python documents that `reverse=True`
    keeps records with equal keys in their original order, so the result is
    the unique non-increasing permutation that keeps each group of equal
    keys in input order. It is modelled here as an insertion sort. */
module StableSort {

  predicate NonIncreasing<T>(s: seq<T>, key: T -> int)
  {
    forall i, j :: 0 <= i < j < |s| ==> key(s[i]) >= key(s[j])
  }

  /** The elements of s whose key is v, in their order in s. */
  function WithKey<T>(s: seq<T>, key: T -> int, v: int): seq<T>
  {
    if |s| == 0 then []
    else (if key(s[0]) == v then [s[0]] else []) + WithKey(s[1..], key, v)
  }

  /** Places x in front of the first element whose key is not larger. */
  function Insert<T>(x: T, r: seq<T>, key: T -> int): (out: seq<T>)
    ensures |out| == |r| + 1
  {
    if |r| == 0 || key(r[0]) <= key(x) then [x] + r
    else [r[0]] + Insert(x, r[1..], key)
  }

  /** Insert adds exactly x. */
  lemma {:induction false} InsertMultiset<T>(x: T, r: seq<T>, key: T -> int)
    ensures multiset(Insert(x, r, key)) == multiset{x} + multiset(r)
  {
    if |r| > 0 && key(r[0]) > key(x) {
      assert r == [r[0]] + r[1..];
      InsertMultiset(x, r[1..], key);
    }
  }

  /** The first element of the result is x or the old first element. */
  lemma InsertHead<T>(x: T, r: seq<T>, key: T -> int)
    ensures var out := Insert(x, r, key); out[0] == x || (|r| > 0 && out[0] == r[0])
  {
  }

  /** Insert keeps a non-increasing sequence non-increasing. */
  lemma {:induction false} InsertSorted<T>(x: T, r: seq<T>, key: T -> int)
    requires NonIncreasing(r, key)
    ensures NonIncreasing(Insert(x, r, key), key)
  {
    if |r| > 0 && key(r[0]) > key(x) {
      InsertSorted(x, r[1..], key);
      InsertHead(x, r[1..], key);
      var rest := Insert(x, r[1..], key);
      var out := Insert(x, r, key);
      assert out == [r[0]] + rest;
      forall i, j | 0 <= i < j < |out|
        ensures key(out[i]) >= key(out[j])
      {
        if i > 0 {
          assert out[i] == rest[i - 1] && out[j] == rest[j - 1];
        } else {
          assert out[j] == rest[j - 1];
          assert key(rest[0]) <= key(r[0]);
        }
      }
    }
  }

  /** `sorted(s, key=key, reverse=True)`. */
  function SortDescending<T>(s: seq<T>, key: T -> int): (r: seq<T>)
    ensures multiset(r) == multiset(s)
    ensures NonIncreasing(r, key)
  {
    if |s| == 0 then []
    else
      assert s == [s[0]] + s[1..];
      var rest := SortDescending(s[1..], key);
      InsertMultiset(s[0], rest, key);
      InsertSorted(s[0], rest, key);
      Insert(s[0], rest, key)
  }

  lemma WithKeyCons<T>(y: T, s: seq<T>, key: T -> int, v: int)
    ensures WithKey([y] + s, key, v) == (if key(y) == v then [y] else []) + WithKey(s, key, v)
  {
    assert ([y] + s)[1..] == s;
  }

  lemma {:induction false} WithKeyOfInsert<T>(x: T, r: seq<T>, key: T -> int, v: int)
    ensures WithKey(Insert(x, r, key), key, v)
         == (if key(x) == v then [x] else []) + WithKey(r, key, v)
  {
    if |r| == 0 || key(r[0]) <= key(x) {
      assert Insert(x, r, key) == [x] + r;
      WithKeyCons(x, r, key, v);
    } else {
      var rest := Insert(x, r[1..], key);
      assert Insert(x, r, key) == [r[0]] + rest;
      var head := if key(r[0]) == v then [r[0]] else [];
      var mid := if key(x) == v then [x] else [];
      WithKeyCons(r[0], rest, key, v);
      WithKeyOfInsert(x, r[1..], key, v);
      assert r == [r[0]] + r[1..];
      WithKeyCons(r[0], r[1..], key, v);
      assert head == [] || mid == [];
      assert head + (mid + WithKey(r[1..], key, v)) == mid + (head + WithKey(r[1..], key, v));
    }
  }

  /** Stability: for every key value, the elements carrying it appear in
      the output in the same order as in the input. */
  lemma {:induction false} SortIsStable<T>(s: seq<T>, key: T -> int, v: int)
    ensures WithKey(SortDescending(s, key), key, v) == WithKey(s, key, v)
  {
    if |s| > 0 {
      SortIsStable(s[1..], key, v);
      WithKeyOfInsert(s[0], SortDescending(s[1..], key), key, v);
    }
  }

  /** A sequence that is already in non-increasing key order is unchanged. */
  lemma {:induction false} SortOfSortedIsIdentity<T>(s: seq<T>, key: T -> int)
    requires NonIncreasing(s, key)
    ensures SortDescending(s, key) == s
  {
    if |s| > 0 {
      SortOfSortedIsIdentity(s[1..], key);
      assert s == [s[0]] + s[1..];
    }
  }
}
