/** The greedy selection loop shared by `TestPrioritization.prioritize`
    (base/test_prioritization.py) and `submod_ordering`
    (prioritization_methods.py).

    Each round evaluates the marginal gain of every not-yet-selected item
    against the items selected so far, in the order the items were given,
    and keeps a candidate only when its gain is strictly larger than the best
    seen so far (the running best starts at minus infinity). The first item
    reaching the maximum therefore wins a tie. The pool of remaining items
    keeps the input order, so it is modelled as the ascending sequence of the
    remaining item positions. */
module Greedy {
  import opened Common

  predicate InRange(idx: seq<nat>, n: nat)
  {
    forall i :: 0 <= i < |idx| ==> idx[i] < n
  }

  /** The items at the given positions, in that order. */
  function Pick<T>(items: seq<T>, idx: seq<nat>): (r: seq<T>)
    requires InRange(idx, |items|)
    ensures |r| == |idx|
    ensures forall i :: 0 <= i < |idx| ==> r[i] == items[idx[i]]
  {
    seq(|idx|, i requires 0 <= i < |idx| => items[idx[i]])
  }

  /** The number of rounds of `for _ in range(min(k, n))`. */
  function Rounds(k: int, n: nat): (r: nat)
    ensures r <= n
    ensures k <= 0 ==> r == 0
    ensures k >= n ==> r == n
    ensures 0 <= k <= n ==> r == k
  {
    if k <= 0 then 0 else if k < n then k else n
  }

  /** The gain of item j once the items at `chosen` have been selected. */
  function GainAfter<T>(items: seq<T>, gain: (seq<T>, T) -> real, chosen: seq<nat>, j: nat): real
    requires InRange(chosen, |items|)
    requires j < |items|
  {
    gain(Pick(items, chosen), items[j])
  }

  /** p is the pick of the round that follows `chosen`: a remaining item of
      maximal gain, and no remaining item before it reaches that gain. */
  predicate IsRoundPick<T>(items: seq<T>, gain: (seq<T>, T) -> real, chosen: seq<nat>, p: nat)
    requires InRange(chosen, |items|)
  {
    && p < |items|
    && p !in chosen
    && forall j :: 0 <= j < |items| && j !in chosen ==>
         && GainAfter(items, gain, chosen, j) <= GainAfter(items, gain, chosen, p)
         && (j < p ==> GainAfter(items, gain, chosen, j) < GainAfter(items, gain, chosen, p))
  }

  /** Every element of `order` is the round pick given the elements before it. */
  predicate IsGreedyOrder<T>(items: seq<T>, gain: (seq<T>, T) -> real, order: seq<nat>)
  {
    && InRange(order, |items|)
    && forall r :: 0 <= r < |order| ==> IsRoundPick(items, gain, order[..r], order[r])
  }

  /** The inner loop of one round: the position of the first strict maximum. */
  method FirstStrictMax(gains: seq<real>) returns (p: nat)
    requires |gains| > 0
    ensures p < |gains|
    ensures forall q :: 0 <= q < |gains| ==> gains[q] <= gains[p]
    ensures forall q :: 0 <= q < p ==> gains[q] < gains[p]
  {
    var best: Option<nat> := None;  // no candidate yet: the best gain is minus infinity
    var i := 0;
    while i < |gains|
      invariant 0 <= i <= |gains|
      invariant best.None? <==> i == 0
      invariant best.Some? ==> best.value < i
      invariant best.Some? ==> forall q :: 0 <= q < i ==> gains[q] <= gains[best.value]
      invariant best.Some? ==> forall q :: 0 <= q < best.value ==> gains[q] < gains[best.value]
    {
      if best.None? || gains[i] > gains[best.value] {
        best := Some(i);
      }
      i := i + 1;
    }
    p := best.value;
  }

  /** Removing the entry at p from a strictly increasing sequence removes
      exactly the value stored there. */
  lemma RemoveAtMembers(s: seq<nat>, p: nat)
    requires StrictlyIncreasing(s)
    requires p < |s|
    ensures StrictlyIncreasing(s[..p] + s[p + 1..])
    ensures forall j :: j in s[..p] + s[p + 1..] <==> j in s && j != s[p]
  {
    var t := s[..p] + s[p + 1..];
    forall j | j in s && j != s[p]
      ensures j in t
    {
      var q :| 0 <= q < |s| && s[q] == j;
      if q < p {
        assert t[q] == j;
      } else {
        assert t[q - 1] == j;
      }
    }
    forall i, k | 0 <= i < k < |t|
      ensures t[i] < t[k]
    {
      var i' := if i < p then i else i + 1;
      var k' := if k < p then k else k + 1;
      assert t[i] == s[i'] && t[k] == s[k'];
    }
  }

  /** The position of the round's maximum in `remaining` gives a round pick. */
  lemma RoundPickFromMax<T>(items: seq<T>, gain: (seq<T>, T) -> real, order: seq<nat>,
                            remaining: seq<nat>, gains: seq<real>, p: nat)
    requires InRange(order, |items|) && InRange(remaining, |items|)
    requires StrictlyIncreasing(remaining)
    requires forall j :: 0 <= j < |items| ==> (j in remaining <==> j !in order)
    requires |gains| == |remaining|
    requires forall i :: 0 <= i < |remaining| ==> gains[i] == GainAfter(items, gain, order, remaining[i])
    requires p < |gains|
    requires forall q :: 0 <= q < |gains| ==> gains[q] <= gains[p]
    requires forall q :: 0 <= q < p ==> gains[q] < gains[p]
    ensures IsRoundPick(items, gain, order, remaining[p])
  {
    var best := remaining[p];
    forall j | 0 <= j < |items| && j !in order
      ensures GainAfter(items, gain, order, j) <= GainAfter(items, gain, order, best)
      ensures j < best ==> GainAfter(items, gain, order, j) < GainAfter(items, gain, order, best)
    {
      var q :| 0 <= q < |remaining| && remaining[q] == j;
      assert gains[q] <= gains[p];
      if j < best {
        assert q < p;
      }
    }
  }

  lemma ExtendGreedyOrder<T>(items: seq<T>, gain: (seq<T>, T) -> real, order: seq<nat>, best: nat)
    requires IsGreedyOrder(items, gain, order)
    requires IsRoundPick(items, gain, order, best)
    ensures IsGreedyOrder(items, gain, order + [best])
  {
    var next := order + [best];
    forall r | 0 <= r < |next|
      ensures IsRoundPick(items, gain, next[..r], next[r])
    {
      if r < |order| {
        assert next[..r] == order[..r];
      } else {
        assert next[..r] == order;
      }
    }
  }

  /** The positions of the selection loop: `order` holds the picks so far
      and `remaining` the other positions, in increasing order. */
  ghost predicate Partition(n: nat, order: seq<nat>, remaining: seq<nat>)
  {
    && InRange(order, n) && InRange(remaining, n)
    && multiset(order) + multiset(remaining) == multiset(Range(n))
    && StrictlyIncreasing(remaining)
    && (forall j :: 0 <= j < n ==> (j in remaining <==> j !in order))
  }

  lemma MoveMultiset(order: seq<nat>, remaining: seq<nat>, p: nat)
    requires p < |remaining|
    ensures multiset(order + [remaining[p]]) + multiset(remaining[..p] + remaining[p + 1..])
         == multiset(order) + multiset(remaining)
  {
    RemoveAtMultiset(remaining, p);
  }

  lemma MoveMembers(n: nat, order: seq<nat>, remaining: seq<nat>, p: nat)
    requires StrictlyIncreasing(remaining) && p < |remaining|
    requires forall j :: 0 <= j < n ==> (j in remaining <==> j !in order)
    ensures forall j :: 0 <= j < n ==>
              (j in remaining[..p] + remaining[p + 1..] <==> j !in order + [remaining[p]])
  {
    RemoveAtMembers(remaining, p);
    forall j | 0 <= j < n
      ensures j in remaining[..p] + remaining[p + 1..] <==> j !in order + [remaining[p]]
    {
      assert j in order + [remaining[p]] <==> j in order || j == remaining[p];
    }
  }

  /** Moving entry p of `remaining` to the end of `order` keeps the partition. */
  lemma PartitionStep(n: nat, order: seq<nat>, remaining: seq<nat>, p: nat)
    requires Partition(n, order, remaining)
    requires p < |remaining|
    ensures Partition(n, order + [remaining[p]], remaining[..p] + remaining[p + 1..])
  {
    RemoveAtMembers(remaining, p);
    MoveMultiset(order, remaining, p);
    MoveMembers(n, order, remaining, p);
  }

  /** The first strict maximum of the round's gains extends the greedy order. */
  lemma GreedyStep<T>(items: seq<T>, gain: (seq<T>, T) -> real, order: seq<nat>, remaining: seq<nat>,
                      gains: seq<real>, p: nat)
    requires Partition(|items|, order, remaining)
    requires IsGreedyOrder(items, gain, order)
    requires |gains| == |remaining|
    requires forall i :: 0 <= i < |remaining| ==> gains[i] == GainAfter(items, gain, order, remaining[i])
    requires p < |gains|
    requires forall q :: 0 <= q < |gains| ==> gains[q] <= gains[p]
    requires forall q :: 0 <= q < p ==> gains[q] < gains[p]
    ensures IsGreedyOrder(items, gain, order + [remaining[p]])
  {
    RoundPickFromMax(items, gain, order, remaining, gains, p);
    ExtendGreedyOrder(items, gain, order, remaining[p]);
  }

  /** The greedy prioritization: `k` rounds (clamped to 0..n), each picking
      the first strict maximum of the gain among the remaining items. */
  method Select<T>(items: seq<T>, gain: (seq<T>, T) -> real, k: int) returns (order: seq<nat>)
    ensures |order| == Rounds(k, |items|)
    ensures IsGreedyOrder(items, gain, order)
    ensures Distinct(order)
    ensures multiset(order) <= multiset(Range(|items|))
    ensures k >= |items| ==> multiset(order) == multiset(Range(|items|))
  {
    var n := |items|;
    var remaining := Range(n);
    order := [];
    var rounds := Rounds(k, n);
    forall j | 0 <= j < n
      ensures j in remaining
    {
      assert remaining[j] == j;
    }
    while |order| < rounds
      invariant |order| <= rounds
      invariant Partition(n, order, remaining)
      invariant IsGreedyOrder(items, gain, order)
    {
      assert |multiset(order) + multiset(remaining)| == n;
      var selected := Pick(items, order);
      var gains := seq(|remaining|, i requires 0 <= i < |remaining| => gain(selected, items[remaining[i]]));
      var p := FirstStrictMax(gains);
      GreedyStep(items, gain, order, remaining, gains, p);
      PartitionStep(n, order, remaining, p);
      order := order + [remaining[p]];
      remaining := remaining[..p] + remaining[p + 1..];
    }
    GreedyOrderIsDistinct(items, gain, order);
    assert |multiset(order) + multiset(remaining)| == n;
  }

  /** No item is picked twice. */
  lemma GreedyOrderIsDistinct<T>(items: seq<T>, gain: (seq<T>, T) -> real, order: seq<nat>)
    requires IsGreedyOrder(items, gain, order)
    ensures Distinct(order)
  {
    forall i, j | 0 <= i < j < |order|
      ensures order[i] != order[j]
    {
      assert IsRoundPick(items, gain, order[..j], order[j]);
      assert order[i] in order[..j];
    }
  }

  /** Given the same history, the round pick is unique. */
  lemma RoundPickIsUnique<T>(items: seq<T>, gain: (seq<T>, T) -> real, chosen: seq<nat>, p: nat, q: nat)
    requires InRange(chosen, |items|)
    requires IsRoundPick(items, gain, chosen, p)
    requires IsRoundPick(items, gain, chosen, q)
    ensures p == q
  {
    var gp := GainAfter(items, gain, chosen, p);
    var gq := GainAfter(items, gain, chosen, q);
    assert p < q ==> gp < gq;
    assert q < p ==> gq < gp;
  }

  /** Greedy determinism: two greedy orders of the same length are equal. */
  lemma {:induction false} GreedyIsDeterministic<T>(items: seq<T>, gain: (seq<T>, T) -> real,
                                                   a: seq<nat>, b: seq<nat>)
    requires IsGreedyOrder(items, gain, a)
    requires IsGreedyOrder(items, gain, b)
    requires |a| == |b|
    ensures a == b
    decreases |a|
  {
    if |a| > 0 {
      var r := |a| - 1;
      var a' := a[..r];
      var b' := b[..r];
      assert IsGreedyOrder(items, gain, a') by {
        forall i | 0 <= i < r ensures IsRoundPick(items, gain, a'[..i], a'[i]) {
          assert a'[..i] == a[..i];
          assert IsRoundPick(items, gain, a[..i], a[i]);
        }
      }
      assert IsGreedyOrder(items, gain, b') by {
        forall i | 0 <= i < r ensures IsRoundPick(items, gain, b'[..i], b'[i]) {
          assert b'[..i] == b[..i];
          assert IsRoundPick(items, gain, b[..i], b[i]);
        }
      }
      GreedyIsDeterministic(items, gain, a', b');
      assert IsRoundPick(items, gain, a[..r], a[r]);
      assert IsRoundPick(items, gain, b[..r], b[r]);
      RoundPickIsUnique(items, gain, a', a[r], b[r]);
      assert a == a' + [a[r]] && b == b' + [b[r]];
    }
  }

  lemma PickPrefix<T>(items: seq<T>, idx: seq<nat>, r: nat)
    requires InRange(idx, |items|) && r <= |idx|
    ensures InRange(idx[..r], |items|)
    ensures Pick(items, idx[..r]) == Pick(items, idx)[..r]
  {
  }

  lemma PickConcat<T>(items: seq<T>, u: seq<nat>, v: seq<nat>)
    requires InRange(u, |items|) && InRange(v, |items|)
    ensures InRange(u + v, |items|)
    ensures Pick(items, u + v) == Pick(items, u) + Pick(items, v)
  {
  }

  /** Dropping position k of b drops one copy of items[b[k]] from the pick. */
  lemma PickRemoveAt<T>(items: seq<T>, b: seq<nat>, k: nat)
    requires InRange(b, |items|)
    requires k < |b|
    ensures InRange(b[..k] + b[k + 1..], |items|)
    ensures multiset(Pick(items, b)) == multiset(Pick(items, b[..k] + b[k + 1..])) + multiset{items[b[k]]}
  {
    var left := b[..k];
    var right := b[k + 1..];
    assert InRange(left, |items|) && InRange(right, |items|);
    assert b == left + [b[k]] + right;
    PickConcat(items, left, [b[k]]);
    PickConcat(items, left + [b[k]], right);
    PickConcat(items, left, right);
    assert Pick(items, [b[k]]) == [items[b[k]]];
  }

  lemma PickHead<T>(items: seq<T>, a: seq<nat>)
    requires InRange(a, |items|)
    requires |a| > 0
    ensures InRange(a[1..], |items|)
    ensures multiset(Pick(items, a)) == multiset(Pick(items, a[1..])) + multiset{items[a[0]]}
  {
    assert Pick(items, a) == [items[a[0]]] + Pick(items, a[1..]);
  }

  lemma AddSameKeepsSubMultiset<T>(small: multiset<T>, large: multiset<T>, x: T)
    requires small <= large
    ensures small + multiset{x} <= large + multiset{x}
  {
  }

  /** Taking the head off a and one of its occurrences out of b keeps a's
      multiset below b's. */
  lemma TailSubMultiset(a: seq<nat>, b: seq<nat>, k: nat)
    requires |a| > 0 && k < |b| && b[k] == a[0]
    requires multiset(a) <= multiset(b)
    ensures multiset(a[1..]) <= multiset(b[..k] + b[k + 1..])
  {
    assert a == [a[0]] + a[1..];
    assert multiset(a[1..]) == multiset(a) - multiset{a[0]};
    RemoveAtMultiset(b, k);
  }

  /** The multiset of picked items grows with the multiset of positions. */
  lemma {:induction false} PickMultisetMonotone<T>(items: seq<T>, a: seq<nat>, b: seq<nat>)
    requires InRange(a, |items|) && InRange(b, |items|)
    requires multiset(a) <= multiset(b)
    ensures multiset(Pick(items, a)) <= multiset(Pick(items, b))
    decreases |a|
  {
    if |a| > 0 {
      assert a[0] in multiset(b);
      var k :| 0 <= k < |b| && b[k] == a[0];
      var b' := b[..k] + b[k + 1..];
      TailSubMultiset(a, b, k);
      PickRemoveAt(items, b, k);
      PickHead(items, a);
      PickMultisetMonotone(items, a[1..], b');
      AddSameKeepsSubMultiset(multiset(Pick(items, a[1..])), multiset(Pick(items, b')), items[a[0]]);
    } else {
      assert Pick(items, a) == [];
    }
  }

  /** Picking along a permutation of all positions yields a permutation of the items. */
  lemma PickPermutation<T>(items: seq<T>, idx: seq<nat>)
    requires multiset(idx) == multiset(Range(|items|))
    ensures InRange(idx, |items|)
    ensures multiset(Pick(items, idx)) == multiset(items)
  {
    var all := Range(|items|);
    forall i | 0 <= i < |idx|
      ensures idx[i] < |items|
    {
      assert idx[i] in multiset(all);
    }
    assert Pick(items, all) == items;
    PickMultisetMonotone(items, idx, all);
    PickMultisetMonotone(items, all, idx);
  }

  /** Picking along distinct in-range positions never invents or repeats items. */
  lemma PickSubMultiset<T>(items: seq<T>, idx: seq<nat>)
    requires multiset(idx) <= multiset(Range(|items|))
    ensures InRange(idx, |items|)
    ensures multiset(Pick(items, idx)) <= multiset(items)
  {
    var all := Range(|items|);
    forall i | 0 <= i < |idx|
      ensures idx[i] < |items|
    {
      assert idx[i] in multiset(all);
    }
    assert Pick(items, all) == items;
    PickMultisetMonotone(items, idx, all);
  }
}
