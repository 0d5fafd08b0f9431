/**
  Top-K selection, `user_similarity.argsort()[0][-k:][::-1]`: numpy's
  `argsort` orders the catalog positions by ascending similarity, `[-k:]`
  keeps the last k of them and `[::-1]` puts the most similar first.

  Scores are integers here: only their order matters to the selection.
  numpy's default `argsort` is not stable, so the order it gives to equal
  scores is left open: every property below holds for ANY ascending argsort
  (`IsAscendingArgsort`). `StableArgsort` is one such argsort, with ties in
  ascending position, and shows the requirement can be met.
*/
module Ranking {

  /** `perm` lists every position 0..n-1 exactly once. */
  predicate IsPermutation(perm: seq<nat>, n: nat)
  {
    && |perm| == n
    && (forall i :: 0 <= i < n ==> perm[i] < n)
    && (forall i, j :: 0 <= i < j < n ==> perm[i] != perm[j])
    && (forall x: nat :: x < n ==> x in perm)
  }

  /** What `argsort` returns: the positions ordered by ascending score; the order of equal scores is open. */
  predicate IsAscendingArgsort(scores: seq<int>, perm: seq<nat>)
  {
    && IsPermutation(perm, |scores|)
    && forall i, j :: 0 <= i < j < |perm| ==> scores[perm[i]] <= scores[perm[j]]
  }

  /** Python's `a[-k:]` for `k >= 0`: the last k elements; all of `a` when k is 0 (as `-0` is `0`) or at least |a|. */
  function TakeLast<T>(a: seq<T>, k: nat): seq<T>
  {
    if k == 0 || k >= |a| then a else a[|a| - k..]
  }

  /** Python's `a[::-1]`. */
  function Reverse<T>(a: seq<T>): (r: seq<T>)
    ensures |r| == |a|
    ensures forall i :: 0 <= i < |a| ==> r[i] == a[|a| - 1 - i]
  {
    seq(|a|, i requires 0 <= i < |a| => a[|a| - 1 - i])
  }

  /** `argsort()[0][-k:][::-1]` applied to an argsort `perm`. */
  function TopIndices(perm: seq<nat>, k: nat): seq<nat>
  {
    Reverse(TakeLast(perm, k))
  }

  function Min(a: int, b: int): int
  {
    if a <= b then a else b
  }

  /**
    `sel` picks the k best positions (all of them when there are fewer than
    k): it has min(k, n) distinct positions in range, scores never rise along
    it, and no position left out scores above one picked.
  */
  predicate IsTopSelection(scores: seq<int>, k: nat, sel: seq<nat>)
  {
    && |sel| == Min(k, |scores|)
    && (forall i :: 0 <= i < |sel| ==> sel[i] < |scores|)
    && (forall i, j :: 0 <= i < j < |sel| ==> sel[i] != sel[j])
    && (forall i, j :: 0 <= i < j < |sel| ==> scores[sel[i]] >= scores[sel[j]])
    && (forall x: nat, j :: x < |scores| && x !in sel && 0 <= j < |sel| ==> scores[x] <= scores[sel[j]])
  }

  /** Position `i` of the selection is position `n - 1 - i` of the argsort, for the last m positions. */
  lemma TopIndicesAt(perm: seq<nat>, k: nat)
    ensures var sel, m := TopIndices(perm, k), if k == 0 then |perm| else Min(k, |perm|);
      && |sel| == m
      && (forall i :: 0 <= i < m ==> sel[i] == perm[|perm| - 1 - i])
  {
  }

  /**
    `sel` lists the last positions of `perm` from the end: position `i` of
    `sel` is position `|perm| - 1 - i` of `perm`.
  */
  predicate IsReversedTail(perm: seq<nat>, sel: seq<nat>)
  {
    |sel| <= |perm| && forall i :: 0 <= i < |sel| ==> sel[i] == perm[|perm| - 1 - i]
  }

  /** The reversed tail of an ascending argsort holds distinct positions in range, with scores never rising. */
  lemma ReversedTailOrdered(scores: seq<int>, perm: seq<nat>, sel: seq<nat>)
    requires IsAscendingArgsort(scores, perm)
    requires IsReversedTail(perm, sel)
    ensures forall i :: 0 <= i < |sel| ==> sel[i] < |scores|
    ensures forall i, j :: 0 <= i < j < |sel| ==> sel[i] != sel[j]
    ensures forall i, j :: 0 <= i < j < |sel| ==> scores[sel[i]] >= scores[sel[j]]
  {
    var n := |scores|;
    forall i, j | 0 <= i < j < |sel|
      ensures sel[i] != sel[j] && scores[sel[i]] >= scores[sel[j]]
    {
      var a, b := n - 1 - j, n - 1 - i;
      assert 0 <= a < b < n;
      assert sel[i] == perm[b] && sel[j] == perm[a];
      assert scores[perm[a]] <= scores[perm[b]];
    }
  }

  /** The reversed tail holds each of the last |sel| positions of `perm`. */
  lemma ReversedTailHoldsTail(perm: seq<nat>, sel: seq<nat>)
    requires IsReversedTail(perm, sel)
    ensures forall q :: |perm| - |sel| <= q < |perm| ==> perm[q] in sel
  {
    forall q | |perm| - |sel| <= q < |perm| ensures perm[q] in sel {
      assert sel[|perm| - 1 - q] == perm[q];
    }
  }

  /** No position left out of the reversed tail of an ascending argsort scores above one in it. */
  lemma ReversedTailDominates(scores: seq<int>, perm: seq<nat>, sel: seq<nat>)
    requires IsAscendingArgsort(scores, perm)
    requires IsReversedTail(perm, sel)
    ensures forall x: nat, j :: x < |scores| && x !in sel && 0 <= j < |sel| ==> sel[j] < |scores| && scores[x] <= scores[sel[j]]
  {
    var n, m := |scores|, |sel|;
    ReversedTailHoldsTail(perm, sel);
    forall x: nat, j | x < n && x !in sel && 0 <= j < m
      ensures sel[j] < n && scores[x] <= scores[sel[j]]
    {
      assert x in perm;
      var p :| 0 <= p < n && perm[p] == x;
      assert p < n - 1 - j;
      assert sel[j] == perm[n - 1 - j];
      assert scores[perm[p]] <= scores[perm[n - 1 - j]];
    }
  }

  /** For k > 0, the last k positions of any ascending argsort, reversed, are a top-k selection. */
  lemma TopIndicesSelectsTopK(scores: seq<int>, perm: seq<nat>, k: nat)
    requires k > 0
    requires IsAscendingArgsort(scores, perm)
    ensures IsTopSelection(scores, k, TopIndices(perm, k))
  {
    var sel := TopIndices(perm, k);
    TopIndicesAt(perm, k);
    assert IsReversedTail(perm, sel);
    ReversedTailOrdered(scores, perm, sel);
    ReversedTailDominates(scores, perm, sel);
  }

  /** With k = 0 the slice `[-0:]` is the whole argsort: every position is returned, highest first. */
  lemma TopIndicesWithZero(scores: seq<int>, perm: seq<nat>)
    requires IsAscendingArgsort(scores, perm)
    ensures var sel := TopIndices(perm, 0);
      && |sel| == |scores|
      && forall i, j :: 0 <= i < j < |sel| ==> scores[sel[i]] >= scores[sel[j]]
  {
  }

  // ---------------------------------------------------------------------------
  // A stable argsort
  // ---------------------------------------------------------------------------

  /** Ordered by score, and by position among equal scores. */
  predicate StablySorted(scores: seq<int>, s: seq<nat>)
    requires forall i :: 0 <= i < |s| ==> s[i] < |scores|
  {
    forall i, j :: 0 <= i < j < |s| ==>
      scores[s[i]] < scores[s[j]] || (scores[s[i]] == scores[s[j]] && s[i] < s[j])
  }

  /** Insert position `x`, larger than every position in `s`, after every position whose score is not above its own. */
  function InsertByScore(scores: seq<int>, s: seq<nat>, x: nat): (r: seq<nat>)
    requires x < |scores|
    requires forall i :: 0 <= i < |s| ==> s[i] < x
    requires StablySorted(scores, s)
    ensures |r| == |s| + 1
    ensures forall y :: y in r <==> y == x || y in s
    ensures forall i :: 0 <= i < |r| ==> r[i] <= x
    ensures StablySorted(scores, r)
    decreases |s|
  {
    if |s| == 0 || scores[s[|s| - 1]] <= scores[x] then s + [x]
    else
      var front, last := s[..|s| - 1], s[|s| - 1];
      var r' := InsertByScore(scores, front, x);
      InsertedBeforeLast(scores, s, x, r');
      r' + [last]
  }

  /**
    When `x` scores below the last position of `s`, everything in the
    insertion of `x` into the rest of `s` comes before that last position.
  */
  lemma InsertedBeforeLast(scores: seq<int>, s: seq<nat>, x: nat, r': seq<nat>)
    requires x < |scores| && |s| > 0
    requires forall i :: 0 <= i < |s| ==> s[i] < x
    requires StablySorted(scores, s)
    requires scores[x] < scores[s[|s| - 1]]
    requires forall y :: y in r' <==> y == x || y in s[..|s| - 1]
    requires forall i :: 0 <= i < |r'| ==> r'[i] <= x
    ensures forall i :: 0 <= i < |r'| ==>
      scores[r'[i]] < scores[s[|s| - 1]] || (scores[r'[i]] == scores[s[|s| - 1]] && r'[i] < s[|s| - 1])
  {
    var last := s[|s| - 1];
    forall i | 0 <= i < |r'|
      ensures scores[r'[i]] < scores[last] || (scores[r'[i]] == scores[last] && r'[i] < last)
    {
      assert r'[i] in r';
      if r'[i] != x {
        var p :| 0 <= p < |s| - 1 && s[..|s| - 1][p] == r'[i];
        assert s[p] == r'[i];
      }
    }
  }

  /** The positions 0..n-1 ordered by (score, position). */
  function StableArgsortUpTo(scores: seq<int>, n: nat): (r: seq<nat>)
    requires n <= |scores|
    ensures |r| == n
    ensures forall i :: 0 <= i < |r| ==> r[i] < n
    ensures forall y: nat :: y in r <==> y < n
    ensures StablySorted(scores, r)
  {
    if n == 0 then [] else InsertByScore(scores, StableArgsortUpTo(scores, n - 1), n - 1)
  }

  /** An argsort that keeps equal scores in ascending position (numpy's `kind='stable'`). */
  function StableArgsort(scores: seq<int>): seq<nat>
  {
    StableArgsortUpTo(scores, |scores|)
  }

  /** The stable argsort is an ascending argsort, so argsorts exist for every list of scores. */
  lemma StableArgsortIsArgsort(scores: seq<int>)
    ensures IsAscendingArgsort(scores, StableArgsort(scores))
  {
    var perm := StableArgsort(scores);
    forall x: nat | x < |scores| ensures x in perm {
    }
  }

  /**
    With the stable argsort, reversing puts equal scores in DESCENDING
    position: among tied items the later catalog row comes first.
  */
  lemma StableTopIndicesTies(scores: seq<int>, k: nat)
    ensures var sel := TopIndices(StableArgsort(scores), k);
      forall i, j :: 0 <= i < j < |sel| && sel[i] < |scores| && sel[j] < |scores| && scores[sel[i]] == scores[sel[j]] ==> sel[i] > sel[j]
  {
    var perm := StableArgsort(scores);
    var sel := TopIndices(perm, k);
    TopIndicesAt(perm, k);
    assert IsReversedTail(perm, sel);
    ReversedTailTies(scores, perm, sel);
  }

  /** Reading a stably sorted list from the end meets equal scores in descending position. */
  lemma ReversedTailTies(scores: seq<int>, perm: seq<nat>, sel: seq<nat>)
    requires forall i :: 0 <= i < |perm| ==> perm[i] < |scores|
    requires StablySorted(scores, perm)
    requires IsReversedTail(perm, sel)
    ensures forall i, j :: 0 <= i < j < |sel| && sel[i] < |scores| && sel[j] < |scores| && scores[sel[i]] == scores[sel[j]] ==> sel[i] > sel[j]
  {
    var n := |perm|;
    forall i, j | 0 <= i < j < |sel| && sel[i] < |scores| && sel[j] < |scores| && scores[sel[i]] == scores[sel[j]]
      ensures sel[i] > sel[j]
    {
      var a, b := n - 1 - j, n - 1 - i;
      assert 0 <= a < b < n;
      assert sel[i] == perm[b] && sel[j] == perm[a];
    }
  }
}
