/** The top-k selection of `retrieve`: `np.argsort(similarities)`, the last
    `min(top_k, n)` entries of it, reversed.

    numpy's default sort is not stable, so which of several equal scores
    comes first is not fixed: `IsArgsort` admits every ordering of equal
    scores, the selection lemmas hold for every such ordering, and
    `Argsort` computes one of them.
 */
module Ranking {
  import opened Text

  predicate Distinct(xs: seq<nat>) {
    forall i, j | 0 <= i < j < |xs| :: xs[i] != xs[j]
  }

  /** Where `x` occurs in `xs`. */
  function IndexOf(xs: seq<nat>, x: nat): (m: nat)
    requires x in xs
    ensures m < |xs| && xs[m] == x
  {
    if xs[0] == x then 0 else 1 + IndexOf(xs[1..], x)
  }

  /** Every entry of `order` indexes `scores`. */
  predicate InRange(scores: seq<real>, order: seq<nat>) {
    forall i | 0 <= i < |order| :: order[i] < |scores|
  }

  /** The scores at the indices of `order` never decrease. */
  predicate Ascending(scores: seq<real>, order: seq<nat>)
    requires InRange(scores, order)
  {
    forall i, j | 0 <= i < j < |order| :: scores[order[i]] <= scores[order[j]]
  }

  /** `order` is an argsort of `scores`: every index of `scores` exactly
      once, in an order of non-decreasing score. */
  predicate IsArgsort(scores: seq<real>, order: seq<nat>) {
    && |order| == |scores|
    && InRange(scores, order)
    && Distinct(order)
    && (forall j | 0 <= j < |scores| :: j in order)
    && Ascending(scores, order)
  }

  /** The number of leading entries of a score-sorted `order` whose score is
      at most `v`: where an index of score `v` goes so that the order stays
      sorted. */
  method InsertPosition(scores: seq<real>, order: seq<nat>, v: real) returns (p: nat)
    requires InRange(scores, order) && Ascending(scores, order)
    ensures p <= |order|
    ensures forall i | 0 <= i < p :: scores[order[i]] <= v
    ensures forall i | p <= i < |order| :: v < scores[order[i]]
  {
    p := 0;
    while p < |order| && scores[order[p]] <= v
      invariant p <= |order|
      invariant forall i | 0 <= i < p :: scores[order[i]] <= v
    {
      p := p + 1;
    }
  }

  /** `xs` with `k` inserted before position `p`. */
  function InsertAt(xs: seq<nat>, p: nat, k: nat): (r: seq<nat>)
    requires p <= |xs|
    ensures |r| == |xs| + 1
    ensures forall i | 0 <= i < |r| :: r[i] == (if i < p then xs[i] else if i == p then k else xs[i - 1])
  {
    xs[..p] + [k] + xs[p..]
  }

  /** Inserting index `k` at its position keeps the order sorted. */
  lemma InsertKeepsAscending(scores: seq<real>, order: seq<nat>, p: nat, k: nat)
    requires InRange(scores, order) && Ascending(scores, order)
    requires p <= |order| && k < |scores|
    requires forall i | 0 <= i < p :: scores[order[i]] <= scores[k]
    requires forall i | p <= i < |order| :: scores[k] < scores[order[i]]
    ensures var order' := InsertAt(order, p, k);
      InRange(scores, order') && Ascending(scores, order')
  {
  }

  /** Inserting a new index keeps the entries distinct and loses none. */
  lemma InsertKeepsEntries(order: seq<nat>, p: nat, k: nat)
    requires p <= |order| && Distinct(order) && k !in order
    ensures var order' := InsertAt(order, p, k);
      && Distinct(order')
      && k in order'
      && forall j | j in order :: j in order'
  {
    var order' := InsertAt(order, p, k);
    assert order'[p] == k;
    forall j | j in order ensures j in order' {
      var m := IndexOf(order, j);
      if m < p {
        assert order'[m] == j;
      } else {
        assert order'[m + 1] == j;
      }
    }
  }

  /** `np.argsort(scores)`: the indices of `scores` sorted by score, equal
      scores in some order. */
  method Argsort(scores: seq<real>) returns (order: seq<nat>)
    ensures IsArgsort(scores, order)
  {
    order := [];
    var k := 0;
    while k < |scores|
      invariant k <= |scores| && |order| == k
      invariant forall i | 0 <= i < |order| :: order[i] < k
      invariant Distinct(order)
      invariant forall j | 0 <= j < k :: j in order
      invariant InRange(scores, order) && Ascending(scores, order)
    {
      var p := InsertPosition(scores, order, scores[k]);
      InsertKeepsAscending(scores, order, p, k);
      InsertKeepsEntries(order, p, k);
      order := InsertAt(order, p, k);
      k := k + 1;
    }
  }

  /** Python's `xs[i:]` for any integer `i`: a negative `i` counts from the
      end, and both are clamped to the length. */
  function PySuffix<T>(xs: seq<T>, i: int): (r: seq<T>)
    ensures i < 0 ==> r == xs[if |xs| + i < 0 then 0 else |xs| + i..]
    ensures 0 <= i ==> r == xs[if i < |xs| then i else |xs|..]
  {
    if i < 0 then
      if |xs| + i < 0 then xs else xs[|xs| + i..]
    else if i < |xs| then xs[i..] else []
  }

  /** Python's `xs[::-1]`. */
  function Reverse<T>(xs: seq<T>): (r: seq<T>)
    ensures |r| == |xs|
  {
    if xs == [] then [] else Reverse(xs[1..]) + [xs[0]]
  }

  /** The reversal holds the entries of `xs` last to first. */
  lemma {:induction false} ReverseSpec<T>(xs: seq<T>)
    ensures var r := Reverse(xs);
      forall i | 0 <= i < |xs| :: r[i] == xs[|xs| - 1 - i]
  {
    if xs != [] {
      ReverseSpec(xs[1..]);
      var r := Reverse(xs);
      assert r == Reverse(xs[1..]) + [xs[0]];
      forall i | 0 <= i < |xs| ensures r[i] == xs[|xs| - 1 - i] {
        if i < |xs| - 1 {
          assert r[i] == Reverse(xs[1..])[i] == xs[1..][|xs| - 2 - i];
        }
      }
    }
  }

  /** `np.argsort(similarities)[-actual_top_k:][::-1]` with
      `actual_top_k = min(top_k, n)`. */
  function TopIndices(order: seq<nat>, topK: int, n: nat): seq<nat> {
    Reverse(PySuffix(order, -Min(topK, n)))
  }

  /** How many indices the selection keeps out of `n`: `min(top_k, n)` for
      a positive `top_k`; for a `top_k` of 0 or less, `[-0:]` is the whole
      list and a negative `top_k` drops that many of the first entries. */
  function SelectedCount(topK: int, n: nat): nat {
    if 1 <= topK then Min(topK, n) else n - Min(-topK, n)
  }

  /** The selection reads the argsort backwards from its end. */
  lemma SelectionReadsBackwards(order: seq<nat>, topK: int, n: nat)
    requires |order| == n
    ensures var sel := TopIndices(order, topK, n);
      && |sel| == SelectedCount(topK, n)
      && forall i | 0 <= i < |sel| :: sel[i] == order[n - 1 - i]
  {
    var k := Min(topK, n);
    SelectionWithin(order, topK, n);
    if topK <= 0 {
      assert PySuffix(order, -k) == order[Min(-topK, n)..];
    } else {
      assert PySuffix(order, -k) == order[n - k..];
    }
  }

  /** Whatever `n` is, the selection is a run of `order` read backwards
      from its end, so it only holds entries of `order`. */
  lemma SelectionWithin(order: seq<nat>, topK: int, n: nat)
    ensures var sel := TopIndices(order, topK, n);
      && |sel| <= |order|
      && forall i | 0 <= i < |sel| :: sel[i] == order[|order| - 1 - i]
  {
    var suffix := PySuffix(order, -Min(topK, n));
    assert suffix == order[|order| - |suffix|..];
    ReverseSpec(suffix);
    var sel := TopIndices(order, topK, n);
    assert sel == Reverse(suffix);
    forall i | 0 <= i < |sel| ensures sel[i] == order[|order| - 1 - i] {
      assert sel[i] == suffix[|suffix| - 1 - i];
    }
  }

  /** Read backwards from the end, an ascending order of distinct indices
      gives distinct indices of non-increasing score. */
  lemma SelectionDescending(scores: seq<real>, order: seq<nat>, topK: int)
    requires InRange(scores, order) && Ascending(scores, order) && Distinct(order)
    ensures var sel := TopIndices(order, topK, |order|);
      && InRange(scores, sel)
      && Distinct(sel)
      && (forall i, j | 0 <= i < j < |sel| :: scores[sel[i]] >= scores[sel[j]])
  {
    SelectionReadsBackwards(order, topK, |order|);
  }

  /** The indices selected from an ascending order that holds every index
      score at least as high as any index left out, whatever `top_k` is. */
  lemma SelectionDominates(scores: seq<real>, order: seq<nat>, topK: int)
    requires |order| == |scores| && InRange(scores, order) && Ascending(scores, order)
    requires forall j | 0 <= j < |scores| :: j in order
    ensures var sel := TopIndices(order, topK, |scores|);
      && InRange(scores, sel)
      && forall i, j | 0 <= i < |sel| && 0 <= j < |scores| && j !in sel :: scores[sel[i]] >= scores[j]
  {
    var n := |scores|;
    var sel := TopIndices(order, topK, n);
    SelectionReadsBackwards(order, topK, n);
    SelectedTail(order, topK, n);
    forall i, j | 0 <= i < |sel| && 0 <= j < n && j !in sel
      ensures scores[sel[i]] >= scores[j]
    {
      var m := IndexOf(order, j);
    }
  }

  /** Every entry in the last `|sel|` places of `order` is selected. */
  lemma SelectedTail(order: seq<nat>, topK: int, n: nat)
    requires |order| == n
    ensures var sel := TopIndices(order, topK, n);
      |sel| <= n && forall k | n - |sel| <= k < n :: order[k] in sel
  {
    var sel := TopIndices(order, topK, n);
    SelectionReadsBackwards(order, topK, n);
    forall k | n - |sel| <= k < n ensures order[k] in sel {
      assert sel[n - 1 - k] == order[k];
    }
  }

  /** For a positive `top_k`, the selection from any argsort is a top-k
      selection: `min(top_k, n)` distinct indices of `scores`, by
      non-increasing score, none scoring below an index left out. */
  lemma TopKSelection(scores: seq<real>, order: seq<nat>, topK: int)
    requires IsArgsort(scores, order) && 1 <= topK
    ensures var sel := TopIndices(order, topK, |scores|);
      && |sel| == Min(topK, |scores|)
      && InRange(scores, sel)
      && Distinct(sel)
      && (forall i, j | 0 <= i < j < |sel| :: scores[sel[i]] >= scores[sel[j]])
      && (forall i, j | 0 <= i < |sel| && 0 <= j < |scores| && j !in sel :: scores[sel[i]] >= scores[j])
  {
    SelectionReadsBackwards(order, topK, |scores|);
    SelectionDescending(scores, order, topK);
    SelectionDominates(scores, order, topK);
  }

  /** A `top_k` of 0 or less is not rejected: `[-0:]` is the whole argsort,
      so 0 selects every index, and a negative `top_k` drops that many of
      the lowest-scoring indices instead. */
  lemma NonPositiveTopK(scores: seq<real>, order: seq<nat>, topK: int)
    requires IsArgsort(scores, order) && topK <= 0
    ensures var sel := TopIndices(order, topK, |scores|);
      && |sel| == |scores| - Min(-topK, |scores|)
      && InRange(scores, sel)
      && (forall i, j | 0 <= i < |sel| && 0 <= j < |scores| && j !in sel :: scores[sel[i]] >= scores[j])
      && (topK == 0 ==> sel == Reverse(order) && forall j | 0 <= j < |scores| :: j in sel)
  {
    var sel := TopIndices(order, topK, |scores|);
    SelectionReadsBackwards(order, topK, |scores|);
    SelectionDominates(scores, order, topK);
    if topK == 0 {
      assert PySuffix(order, 0) == order;
      forall j | 0 <= j < |scores| ensures j in sel {
        var m := IndexOf(order, j);
        assert sel[|order| - 1 - m] == j;
      }
    }
  }
}
