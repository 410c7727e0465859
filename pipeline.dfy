/**
 One query through the matching pipeline: the row of similarity scores (one
 per catalog entry, in catalog order) is cut to the top-k, candidates below
 the similarity threshold are dropped in ranked order, and the survivors are
 assembled with their catalog fields into an "ok" or "no_match" result.
 */
module Pipeline {
  import opened Catalog
  import opened Ranking

  /** Candidates scoring strictly below this are dropped. */
  const SIMILARITY_THRESHOLD: real := 0.55

  /** The largest number of ranked candidates. */
  const TOP_K: nat := 3

  datatype Status = Ok | NoMatch

  /** One returned technique: the catalog row of a kept candidate with its rounded score. */
  datatype Technique = Technique(
    id: string,
    name: string,
    confidence: real,
    description: string,
    tacticId: string,
    tacticName: string)

  datatype PipelineResult = PipelineResult(status: Status, techniques: seq<Technique>)

  /** `k = min(TOP_K, len(sims))`. */
  function RankCount(n: nat): (k: nat)
    ensures k <= TOP_K && k <= n
    ensures k == TOP_K || k == n
  {
    if TOP_K < n then TOP_K else n
  }

  /** The integer nearest to y, ties going to the even neighbour. */
  function RoundHalfEven(y: real): (n: int)
    ensures -0.5 <= n as real - y <= 0.5
    ensures (n as real - y == 0.5 || y - n as real == 0.5) ==> n % 2 == 0
  {
    var f := y.Floor;
    var frac := y - f as real;
    if frac < 0.5 then f
    else if frac > 0.5 then f + 1
    else if f % 2 == 0 then f else f + 1
  }

  /** `round(score, 4)`: the nearest multiple of 1/10000, ties to even. */
  function Round4(x: real): (r: real)
    ensures (r * 10000.0).Floor as real == r * 10000.0
    ensures -0.00005 <= r - x <= 0.00005
  {
    RoundHalfEven(x * 10000.0) as real / 10000.0
  }

  lemma RoundHalfEvenMonotone(a: real, b: real)
    requires a <= b
    ensures RoundHalfEven(a) <= RoundHalfEven(b)
  {
    var fa, fb := a.Floor, b.Floor;
    if fa == fb {
      assert a - fa as real <= b - fb as real;
    } else {
      assert fa + 1 <= fb;
      assert RoundHalfEven(a) <= fa + 1;
      assert fb <= RoundHalfEven(b);
    }
  }

  /** Rounding keeps order: a higher score never gets a lower confidence. */
  lemma Round4Monotone(a: real, b: real)
    requires a <= b
    ensures Round4(a) <= Round4(b)
  {
    RoundHalfEvenMonotone(a * 10000.0, b * 10000.0);
  }

  /** A score at or above the threshold keeps a confidence at or above it. */
  lemma Round4AtLeastThreshold(x: real)
    requires x >= SIMILARITY_THRESHOLD
    ensures Round4(x) >= SIMILARITY_THRESHOLD
  {
    Round4Monotone(SIMILARITY_THRESHOLD, x);
    assert (SIMILARITY_THRESHOLD * 10000.0).Floor == 5500;
  }

  /** The top-k pairs are usable against the catalog: as many scores as indices, every index a row. */
  predicate Ranked(cat: Catalog, scores: seq<real>, indices: seq<nat>) {
    && cat.Valid()
    && |scores| == |indices|
    && (forall j :: 0 <= j < |indices| ==> indices[j] < cat.Size())
  }

  /**
   The ranked positions the filter keeps: ascending, and a position is kept
   exactly when its score reaches the threshold.
   */
  function KeptPositions(scores: seq<real>): (pos: seq<nat>)
    ensures forall m :: 0 <= m < |pos| ==> pos[m] < |scores| && scores[pos[m]] >= SIMILARITY_THRESHOLD
    ensures forall m, m' :: 0 <= m < m' < |pos| ==> pos[m] < pos[m']
    ensures forall j :: 0 <= j < |scores| && scores[j] >= SIMILARITY_THRESHOLD ==> j in pos
    ensures |pos| <= |scores|
  {
    if |scores| == 0 then []
    else
      var n := |scores| - 1;
      KeptPositions(scores[..n]) + (if scores[n] >= SIMILARITY_THRESHOLD then [n] else [])
  }

  /** The returned entry for the candidate at catalog row i with the given score. */
  function Entry(cat: Catalog, score: real, i: nat): Technique
    requires cat.Valid() && i < cat.Size()
  {
    Technique(cat.ids[i], cat.names[i], Round4(score), cat.texts[i], cat.tacticIds[i], cat.tacticNames[i])
  }

  /** The entries of the kept candidates, in ranked order. */
  function Matches(cat: Catalog, scores: seq<real>, indices: seq<nat>): (ts: seq<Technique>)
    requires Ranked(cat, scores, indices)
  {
    var pos := KeptPositions(scores);
    seq(|pos|, m requires 0 <= m < |pos| => Entry(cat, scores[pos[m]], indices[pos[m]]))
  }

  /** The two result shapes: "no_match" with no techniques, or "ok" with the non-empty list. */
  function Respond(ts: seq<Technique>): (r: PipelineResult)
    ensures r.techniques == ts
    ensures r.status == NoMatch <==> ts == []
  {
    if ts == [] then PipelineResult(NoMatch, []) else PipelineResult(Ok, ts)
  }

  /**
   `ts` is the order-preserving subsequence of the ranked candidates picked by
   `pos`, and `pos` picks exactly those scoring at or above the threshold.
   */
  predicate KeepsInOrder(cat: Catalog, scores: seq<real>, indices: seq<nat>, ts: seq<Technique>, pos: seq<nat>)
    requires Ranked(cat, scores, indices)
  {
    && |pos| == |ts|
    && (forall m :: 0 <= m < |pos| ==> pos[m] < |scores| && ts[m] == Entry(cat, scores[pos[m]], indices[pos[m]]))
    && (forall m, m' :: 0 <= m < m' < |pos| ==> pos[m] < pos[m'])
    && (forall j :: 0 <= j < |scores| ==> (j in pos <==> scores[j] >= SIMILARITY_THRESHOLD))
  }

  /** The filter keeps, in ranked order, exactly the candidates at or above the threshold. */
  lemma MatchesKeepInOrder(cat: Catalog, scores: seq<real>, indices: seq<nat>)
    requires Ranked(cat, scores, indices)
    ensures KeepsInOrder(cat, scores, indices, Matches(cat, scores, indices), KeptPositions(scores))
  {
  }

  /** Appending one ranked candidate appends its entry exactly when it reaches the threshold. */
  lemma MatchesSnoc(cat: Catalog, scores: seq<real>, indices: seq<nat>, i: nat)
    requires Ranked(cat, scores, indices) && i < |scores|
    ensures Matches(cat, scores[..i + 1], indices[..i + 1]) ==
      Matches(cat, scores[..i], indices[..i]) +
      (if scores[i] >= SIMILARITY_THRESHOLD then [Entry(cat, scores[i], indices[i])] else [])
  {
    var s, x := scores[..i + 1], indices[..i + 1];
    assert s[..i] == scores[..i];
    var before := KeptPositions(scores[..i]);
    assert KeptPositions(s) == before + (if scores[i] >= SIMILARITY_THRESHOLD then [i] else []);
    var lhs := Matches(cat, s, x);
    var rhs := Matches(cat, scores[..i], indices[..i]);
    forall m | 0 <= m < |before| ensures lhs[m] == rhs[m] {
      assert before[m] < i;
    }
  }

  /**
   `t` is the entry of one catalog row whose score reached the threshold: its
   five catalog fields and its confidence all come from that same row.
   */
  predicate FromKeptRow(cat: Catalog, sims: seq<real>, t: Technique)
    requires cat.Valid() && |sims| == cat.Size()
  {
    exists i :: 0 <= i < |sims| && sims[i] >= SIMILARITY_THRESHOLD && t == Entry(cat, sims[i], i)
  }

  /**
   For any top-k selection: at most k techniques, each built from one ranked
   catalog row whose score reached the threshold, with confidences at or above
   the threshold and non-increasing.
   */
  lemma MatchesOfTopK(cat: Catalog, sims: seq<real>, k: nat, scores: seq<real>, indices: seq<nat>)
    requires cat.Valid() && |sims| == cat.Size() && IsTopK(sims, k, scores, indices)
    ensures Ranked(cat, scores, indices)
    ensures var ts := Matches(cat, scores, indices);
      && |ts| <= k
      && (forall m :: 0 <= m < |ts| ==> FromKeptRow(cat, sims, ts[m]))
      && (forall m :: 0 <= m < |ts| ==> ts[m].confidence >= SIMILARITY_THRESHOLD)
      && (forall m, m' :: 0 <= m < m' < |ts| ==> ts[m].confidence >= ts[m'].confidence)
  {
    var ts := Matches(cat, scores, indices);
    var pos := KeptPositions(scores);
    forall m | 0 <= m < |ts| ensures FromKeptRow(cat, sims, ts[m]) {
      var j := pos[m];
      assert 0 <= j < k && scores[j] == sims[indices[j]] >= SIMILARITY_THRESHOLD;
      assert ts[m] == Entry(cat, sims[indices[j]], indices[j]);
      assert indices[j] < |sims|;
    }
    forall m | 0 <= m < |ts| ensures ts[m].confidence >= SIMILARITY_THRESHOLD {
      Round4AtLeastThreshold(scores[pos[m]]);
    }
    forall m, m' | 0 <= m < m' < |ts| ensures ts[m].confidence >= ts[m'].confidence {
      Round4Monotone(scores[pos[m']], scores[pos[m]]);
    }
  }

  /** The result is "no_match" exactly when no ranked candidate reaches the threshold. */
  lemma NoMatchIffNoneReached(cat: Catalog, scores: seq<real>, indices: seq<nat>)
    requires Ranked(cat, scores, indices)
    ensures Respond(Matches(cat, scores, indices)).status == NoMatch <==>
      forall j :: 0 <= j < |scores| ==> scores[j] < SIMILARITY_THRESHOLD
  {
    var pos := KeptPositions(scores);
    if pos != [] {
      assert pos[0] < |scores| && scores[pos[0]] >= SIMILARITY_THRESHOLD;
    }
  }

  /**
   The status, the number of techniques and their confidences do not depend
   on how the top-k selection breaks ties.
   */
  lemma OutcomeIndependentOfTies(cat: Catalog, sims: seq<real>, k: nat,
                                 scores1: seq<real>, indices1: seq<nat>,
                                 scores2: seq<real>, indices2: seq<nat>)
    requires cat.Valid() && |sims| == cat.Size()
    requires IsTopK(sims, k, scores1, indices1) && IsTopK(sims, k, scores2, indices2)
    ensures Ranked(cat, scores1, indices1) && Ranked(cat, scores2, indices2)
    ensures var r1, r2 := Respond(Matches(cat, scores1, indices1)), Respond(Matches(cat, scores2, indices2));
      && r1.status == r2.status
      && |r1.techniques| == |r2.techniques|
      && forall m :: 0 <= m < |r1.techniques| ==> r1.techniques[m].confidence == r2.techniques[m].confidence
  {
    ScoresDetermined(sims, k, scores1, indices1, scores2, indices2);
  }

  /** The loop over the ranked pairs: keep the candidates at or above the threshold, then pick the result shape. */
  method MatchRanked(cat: Catalog, scores: seq<real>, indices: seq<nat>) returns (res: PipelineResult)
    requires Ranked(cat, scores, indices)
    ensures res == Respond(Matches(cat, scores, indices))
  {
    var techniques: seq<Technique> := [];
    var i := 0;
    while i < |scores|
      invariant 0 <= i <= |scores|
      invariant techniques == Matches(cat, scores[..i], indices[..i])
    {
      var score, idx := scores[i], indices[i];
      if score >= SIMILARITY_THRESHOLD {
        techniques := techniques + [Entry(cat, score, idx)];
      }
      MatchesSnoc(cat, scores, indices, i);
      i := i + 1;
    }
    assert scores[..i] == scores && indices[..i] == indices;
    if techniques == [] {
      res := PipelineResult(NoMatch, []);
    } else {
      res := PipelineResult(Ok, techniques);
    }
  }

  /**
   `run_pipeline` after the scores are computed: `sims` holds one similarity
   per catalog row, in catalog order.
   */
  method RunPipeline(cat: Catalog, sims: seq<real>) returns (res: PipelineResult)
    requires cat.Valid() && |sims| == cat.Size()
    ensures exists scores, indices ::
      (IsTopK(sims, RankCount(|sims|), scores, indices) &&
       Ranked(cat, scores, indices) && res == Respond(Matches(cat, scores, indices)))
    ensures |res.techniques| <= TOP_K && |res.techniques| <= |sims|
    ensures res.status == NoMatch <==> res.techniques == []
    ensures forall m :: 0 <= m < |res.techniques| ==> res.techniques[m].confidence >= SIMILARITY_THRESHOLD
    ensures forall m, m' :: 0 <= m < m' < |res.techniques| ==>
      res.techniques[m].confidence >= res.techniques[m'].confidence
    ensures forall m :: 0 <= m < |res.techniques| ==> FromKeptRow(cat, sims, res.techniques[m])
    ensures |sims| == 0 ==> res == PipelineResult(NoMatch, [])
  {
    var k := RankCount(|sims|);
    var scores, indices := TopK(sims, k);
    MatchesOfTopK(cat, sims, k, scores, indices);
    res := MatchRanked(cat, scores, indices);
  }
}
