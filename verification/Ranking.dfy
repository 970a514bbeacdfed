/** Ranking indices by a score, the step both halves of the rule pipeline
    share: `sort_values(ascending=False).head(k)` on a similarity row and
    `argsort()[::-1][:k]` on token counts. Neither sort is stable, so the
    order among equal scores is not specified; the model settles it one way
    and states every property for any order. */
module Ranking {

  predicate InRange(xs: seq<nat>, n: nat) {
    forall p | 0 <= p < |xs| :: xs[p] < n
  }

  predicate Distinct(xs: seq<nat>) {
    forall p, q | 0 <= p < q < |xs| :: xs[p] != xs[q]
  }

  /** The indices in `xs` have non-increasing scores in `row`. */
  predicate NonIncreasing(xs: seq<nat>, row: seq<real>) {
    InRange(xs, |row|) && forall p, q | 0 <= p < q < |xs| :: row[xs[p]] >= row[xs[q]]
  }

  /** `0, 1, ..., n - 1`. */
  function Range(n: nat): (r: seq<nat>)
    ensures |r| == n
    ensures forall p | 0 <= p < n :: r[p] == p
  {
    seq(n, p requires 0 <= p < n => p)
  }

  /** Places `x` among indices sorted by non-increasing score. */
  function Insert(x: nat, xs: seq<nat>, row: seq<real>): (r: seq<nat>)
    requires x < |row| && NonIncreasing(xs, row)
    ensures multiset(r) == multiset(xs) + multiset{x}
    ensures NonIncreasing(r, row)
    ensures |r| > 0 && (r[0] == x || (|xs| > 0 && r[0] == xs[0]))
  {
    if |xs| == 0 then [x]
    else if row[x] > row[xs[0]] then
      PrependNonIncreasing(x, xs, row);
      [x] + xs
    else
      var tail := Insert(x, xs[1..], row);
      assert xs == [xs[0]] + xs[1..];
      PrependNonIncreasing(xs[0], tail, row);
      [xs[0]] + tail
  }

  /** An index scoring at least the first of a sorted list can go in
      front of it. */
  lemma PrependNonIncreasing(h: nat, tail: seq<nat>, row: seq<real>)
    requires h < |row| && NonIncreasing(tail, row)
    requires |tail| > 0 ==> row[h] >= row[tail[0]]
    ensures NonIncreasing([h] + tail, row)
  {
    var r := [h] + tail;
    forall p, q | 0 <= p < q < |r| ensures row[r[p]] >= row[r[q]] {
      assert r[q] == tail[q - 1];
      if p == 0 {
        if q > 1 {
          assert row[tail[0]] >= row[tail[q - 1]];
        }
      } else {
        assert r[p] == tail[p - 1];
      }
    }
  }

  /** The indices reordered by non-increasing score. */
  function SortByScore(xs: seq<nat>, row: seq<real>): (r: seq<nat>)
    requires InRange(xs, |row|)
    ensures multiset(r) == multiset(xs)
    ensures NonIncreasing(r, row)
  {
    if |xs| == 0 then []
    else
      assert xs == xs[..|xs| - 1] + [xs[|xs| - 1]];
      Insert(xs[|xs| - 1], SortByScore(xs[..|xs| - 1], row), row)
  }

  /** pandas' `head(k)`, and a slice `[:k]` for `k >= 0`: the first `k`
      entries; a negative `k` keeps all but the last `-k`. */
  function Head<T>(xs: seq<T>, k: int): (r: seq<T>)
    ensures k >= 0 ==> |r| == if k < |xs| then k else |xs|
    ensures k < 0 ==> |r| == if |xs| + k > 0 then |xs| + k else 0
    ensures r == xs[..|r|]
  {
    if k >= 0 then (if k < |xs| then xs[..k] else xs)
    else if |xs| + k > 0 then xs[..|xs| + k]
    else []
  }

  /** The first `k` of `xs` by non-increasing score. */
  function TopK(xs: seq<nat>, row: seq<real>, k: int): (r: seq<nat>)
    requires InRange(xs, |row|)
    ensures NonIncreasing(r, row)
    ensures forall p | 0 <= p < |r| :: r[p] in xs
    ensures Distinct(xs) ==> Distinct(r)
    ensures k >= 0 ==> |r| == if k < |xs| then k else |xs|
  {
    var sorted := SortByScore(xs, row);
    assert |sorted| == |xs| by {
      assert |multiset(sorted)| == |multiset(xs)|;
    }
    var r := Head(sorted, k);
    assert forall p | 0 <= p < |r| :: r[p] in xs by {
      forall p | 0 <= p < |r|
        ensures r[p] in xs
      {
        assert r[p] == sorted[p];
        assert sorted[p] in multiset(xs);
      }
    }
    assert Distinct(xs) ==> Distinct(r) by {
      if Distinct(xs) {
        DistinctPrefix(xs, sorted, r);
      }
    }
    r
  }

  /** A prefix of a permutation of distinct indices has distinct indices. */
  lemma DistinctPrefix(xs: seq<nat>, sorted: seq<nat>, r: seq<nat>)
    requires Distinct(xs)
    requires multiset(sorted) == multiset(xs)
    requires |r| <= |sorted| && r == sorted[..|r|]
    ensures Distinct(r)
  {
    DistinctCount(xs);
    forall p, q | 0 <= p < q < |r|
      ensures r[p] != r[q]
    {
      if r[p] == r[q] {
        assert sorted[p] == sorted[q];
        assert sorted[p] in multiset(xs);
        TwoPositions(sorted, p, q);
      }
    }
  }

  /** In a sequence of distinct indices every element occurs once. */
  lemma DistinctCount(xs: seq<nat>)
    requires Distinct(xs)
    ensures forall x | x in multiset(xs) :: multiset(xs)[x] == 1
  {
    if |xs| > 0 {
      var init := xs[..|xs| - 1];
      assert xs == init + [xs[|xs| - 1]];
      DistinctCount(init);
      assert xs[|xs| - 1] !in init;
    }
  }

  /** An element at two positions occurs at least twice. */
  lemma {:induction false} TwoPositions(xs: seq<nat>, p: nat, q: nat)
    requires p < q < |xs| && xs[p] == xs[q]
    ensures multiset(xs)[xs[p]] >= 2
  {
    var x := xs[p];
    assert xs == xs[..q] + [xs[q]] + xs[q + 1..];
    assert xs[..q][p] == x;
    assert x in multiset(xs[..q]);
  }

  /** Every chosen index scores at least as high as every index of `xs`
      passed over. */
  lemma TopKIsTop(xs: seq<nat>, row: seq<real>, k: int, j: nat)
    requires InRange(xs, |row|)
    requires j in xs && j !in TopK(xs, row, k)
    ensures forall p | 0 <= p < |TopK(xs, row, k)| :: row[TopK(xs, row, k)[p]] >= row[j]
  {
    var sorted := SortByScore(xs, row);
    var r := TopK(xs, row, k);
    assert j in multiset(xs);
    assert j in sorted;
    var q :| 0 <= q < |sorted| && sorted[q] == j;
    assert q >= |r|;
    forall p | 0 <= p < |r|
      ensures row[r[p]] >= row[j]
    {
      assert r[p] == sorted[p];
    }
  }
}
