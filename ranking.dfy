/**
 Top-k selection over the row of similarity scores (one score per catalog
 entry). The pipeline hands the selection to a tensor library that promises the
 k best scores in descending order and nothing about ties, so the library's
 contract is the relation IsTopK; TopK is one deterministic selection that
 meets it and in addition ranks equal scores by earlier catalog index.
 */
module Ranking {

  predicate Distinct(xs: seq<nat>) {
    forall i, j :: 0 <= i < j < |xs| ==> xs[i] != xs[j]
  }

  /**
   A ranked prefix: distinct valid positions, each paired with its own score,
   scores non-increasing, and no position left out scoring higher than one
   that was chosen.
   */
  predicate BestFirst(sims: seq<real>, scores: seq<real>, indices: seq<nat>) {
    && |scores| == |indices|
    && (forall j :: 0 <= j < |indices| ==> indices[j] < |sims| && scores[j] == sims[indices[j]])
    && Distinct(indices)
    && (forall i, j :: 0 <= i < j < |scores| ==> scores[i] >= scores[j])
    && (forall j, u :: 0 <= j < |scores| && 0 <= u < |sims| && u !in indices ==> scores[j] >= sims[u])
  }

  /** `scores, indices = topk(sims, k)`: a ranked prefix of exactly k positions. */
  predicate IsTopK(sims: seq<real>, k: nat, scores: seq<real>, indices: seq<nat>) {
    k <= |sims| && |indices| == k && BestFirst(sims, scores, indices)
  }

  /** The stable tie-break: among equal scores the earlier catalog position is ranked, and ranked first. */
  predicate EarlierFirst(sims: seq<real>, indices: seq<nat>)
    requires forall j :: 0 <= j < |indices| ==> indices[j] < |sims|
  {
    && (forall i, j :: 0 <= i < j < |indices| && sims[indices[i]] == sims[indices[j]] ==> indices[i] < indices[j])
    && (forall j, u :: 0 <= j < |indices| && 0 <= u < |sims| && u !in indices && sims[u] == sims[indices[j]] ==>
          indices[j] < u)
  }

  function Range(n: nat): (r: seq<nat>)
    ensures |r| == n && Distinct(r)
    ensures forall i :: 0 <= i < n ==> r[i] == i
  {
    if n == 0 then [] else Range(n - 1) + [n - 1]
  }

  /** Pigeonhole: more distinct values than places means one of them has no place. */
  lemma {:induction false} SomeOutside(a: seq<nat>, b: seq<nat>)
    requires Distinct(a) && |a| > |b|
    ensures exists x :: x in a && x !in b
    decreases |a|
  {
    var x := a[|a| - 1];
    if x in b {
      var p :| 0 <= p < |b| && b[p] == x;
      var a', b' := a[..|a| - 1], b[..p] + b[p + 1..];
      SomeOutside(a', b');
      var y :| y in a' && y !in b';
      var t :| 0 <= t < |a'| && a'[t] == y;
      assert a[t] == y && y != x;
      forall q | 0 <= q < |b| ensures b[q] != y {
        if q < p {
          assert b[q] == b'[q];
        } else if q > p {
          assert b[q] == b'[q - 1];
        }
      }
      assert y in a;
    }
  }

  /** Fewer than n chosen positions leave some position below n unchosen. */
  lemma SomeUnchosen(indices: seq<nat>, n: nat)
    requires |indices| < n
    ensures exists u :: 0 <= u < n && u !in indices
  {
    var r := Range(n);
    SomeOutside(r, indices);
    var x :| x in r && x !in indices;
  }

  /** The first position among those not yet chosen whose score is highest. */
  method BestUnchosen(sims: seq<real>, chosen: seq<nat>) returns (best: nat)
    requires |chosen| < |sims|
    ensures best < |sims| && best !in chosen
    ensures forall v :: 0 <= v < |sims| && v !in chosen ==>
      sims[v] <= sims[best] && (sims[v] == sims[best] ==> best <= v)
  {
    var found := false;
    best := 0;
    var u := 0;
    while u < |sims|
      invariant 0 <= u <= |sims|
      invariant !found ==> forall v :: 0 <= v < u ==> v in chosen
      invariant found ==> best < u && best !in chosen
      invariant found ==> forall v :: 0 <= v < u && v !in chosen ==>
        sims[v] <= sims[best] && (sims[v] == sims[best] ==> best <= v)
    {
      if u !in chosen && (!found || sims[u] > sims[best]) {
        best, found := u, true;
      }
      u := u + 1;
    }
    SomeUnchosen(chosen, |sims|);
    assert found;
  }

  /** The positions left unchosen after appending `best` are those left before, less `best`. */
  lemma UnchosenAfterAppend(indices: seq<nat>, best: nat, u: nat)
    requires u !in indices + [best]
    ensures u !in indices && u != best
  {
    assert forall j :: 0 <= j < |indices| ==> (indices + [best])[j] == indices[j];
  }

  /** Appending the best unchosen position to a ranked prefix gives a longer ranked prefix. */
  lemma ExtendBestFirst(sims: seq<real>, scores: seq<real>, indices: seq<nat>, best: nat)
    requires BestFirst(sims, scores, indices)
    requires best < |sims| && best !in indices
    requires forall v :: 0 <= v < |sims| && v !in indices ==> sims[v] <= sims[best]
    ensures BestFirst(sims, scores + [sims[best]], indices + [best])
  {
    var scores', indices' := scores + [sims[best]], indices + [best];
    forall j, u | 0 <= j < |scores'| && 0 <= u < |sims| && u !in indices' ensures scores'[j] >= sims[u] {
      UnchosenAfterAppend(indices, best, u);
    }
    forall i, j | 0 <= i < j < |scores'| ensures scores'[i] >= scores'[j] {
      if j == |scores| {
        assert scores'[i] == scores[i] >= sims[best];
      }
    }
  }

  /** Appending the first best unchosen position keeps the earlier-position tie-break. */
  lemma ExtendEarlierFirst(sims: seq<real>, indices: seq<nat>, best: nat)
    requires forall j :: 0 <= j < |indices| ==> indices[j] < |sims|
    requires EarlierFirst(sims, indices)
    requires best < |sims| && best !in indices
    requires forall v :: 0 <= v < |sims| && v !in indices && sims[v] == sims[best] ==> best <= v
    ensures EarlierFirst(sims, indices + [best])
  {
    var indices' := indices + [best];
    forall j, u | 0 <= j < |indices'| && 0 <= u < |sims| && u !in indices' && sims[u] == sims[indices'[j]]
      ensures indices'[j] < u
    {
      UnchosenAfterAppend(indices, best, u);
    }
  }

  /**
   Selects k positions one at a time: each round takes the first unchosen
   position with the highest score.
   */
  method TopK(sims: seq<real>, k: nat) returns (scores: seq<real>, indices: seq<nat>)
    requires k <= |sims|
    ensures IsTopK(sims, k, scores, indices)
    ensures EarlierFirst(sims, indices)
  {
    scores, indices := [], [];
    while |indices| < k
      invariant |indices| <= k
      invariant BestFirst(sims, scores, indices)
      invariant EarlierFirst(sims, indices)
      decreases k - |indices|
    {
      var best := BestUnchosen(sims, indices);
      ExtendBestFirst(sims, scores, indices, best);
      ExtendEarlierFirst(sims, indices, best);
      scores, indices := scores + [sims[best]], indices + [best];
    }
  }

  /**
   No valid top-k selection has a higher j-th score than any other: the first
   j+1 positions of `indices1` cannot all fit among the first j of `indices2`.
   */
  lemma ScoreAtMost(sims: seq<real>, k: nat, scores1: seq<real>, indices1: seq<nat>,
                    scores2: seq<real>, indices2: seq<nat>, j: nat)
    requires IsTopK(sims, k, scores1, indices1) && IsTopK(sims, k, scores2, indices2)
    requires j < k
    ensures scores1[j] <= scores2[j]
  {
    var a, b := indices1[..j + 1], indices2[..j];
    SomeOutside(a, b);
    var x :| x in a && x !in b;
    var t :| 0 <= t < |a| && a[t] == x;
    assert sims[x] == scores1[t] >= scores1[j];
    if x in indices2 {
      var m :| 0 <= m < k && indices2[m] == x;
      assert forall i :: 0 <= i < j ==> b[i] == indices2[i];
      assert j <= m;
      assert scores2[j] >= scores2[m];
    } else {
      assert scores2[j] >= sims[x];
    }
  }

  /**
   Ties aside, top-k is determined: every selection meeting IsTopK carries the
   same score sequence, whichever equal-scored positions it picked.
   */
  lemma ScoresDetermined(sims: seq<real>, k: nat, scores1: seq<real>, indices1: seq<nat>,
                         scores2: seq<real>, indices2: seq<nat>)
    requires IsTopK(sims, k, scores1, indices1) && IsTopK(sims, k, scores2, indices2)
    ensures scores1 == scores2
  {
    forall j | 0 <= j < k ensures scores1[j] == scores2[j] {
      ScoreAtMost(sims, k, scores1, indices1, scores2, indices2, j);
      ScoreAtMost(sims, k, scores2, indices2, scores1, indices1, j);
    }
  }
}
