/** The best-candidate scan both block matchers share: walk the candidates
    in order, keep the first one whose score beats everything seen so far,
    starting from a best score of -1. A candidate the matcher skips has no
    score. */
module Matching {
  import opened Basics

  /** After scanning `scores[..k]`, `best`/`idx` hold the first strictly
      greatest score above -1 and its position, or -1 and nothing. */
  predicate ScanState(scores: seq<Option<real>>, k: nat, best: real, idx: Option<nat>)
    requires k <= |scores|
  {
    && (idx.None? ==>
          best == -1.0 && forall m | 0 <= m < k && scores[m].Some? :: scores[m].value <= -1.0)
    && (idx.Some? ==>
          && idx.value < k && scores[idx.value] == Some(best) && best > -1.0
          && (forall m | 0 <= m < k && scores[m].Some? :: scores[m].value <= best)
          && (forall m | 0 <= m < idx.value && scores[m].Some? :: scores[m].value < best))
  }

  /** The loop body from position `k` on: a score replaces the best only
      when it is strictly greater. */
  function ScanFrom(scores: seq<Option<real>>, k: nat, best: real, idx: Option<nat>): (r: (real, Option<nat>))
    requires k <= |scores| && ScanState(scores, k, best, idx)
    ensures ScanState(scores, |scores|, r.0, r.1)
    decreases |scores| - k
  {
    if k == |scores| then (best, idx)
    else if scores[k].Some? && scores[k].value > best then
      ScanFrom(scores, k + 1, scores[k].value, Some(k))
    else
      ScanFrom(scores, k + 1, best, idx)
  }

  /** The position and score of the first maximal score, when some score
      exceeds -1; nothing otherwise. */
  function FirstBest(scores: seq<Option<real>>): (r: Option<(nat, real)>)
    ensures r.Some? ==>
      && r.value.0 < |scores| && scores[r.value.0] == Some(r.value.1) && r.value.1 > -1.0
      && (forall m | 0 <= m < |scores| && scores[m].Some? :: scores[m].value <= r.value.1)
      && (forall m | 0 <= m < r.value.0 && scores[m].Some? :: scores[m].value < r.value.1)
    ensures r.None? <==> forall m | 0 <= m < |scores| && scores[m].Some? :: scores[m].value <= -1.0
  {
    var (best, idx) := ScanFrom(scores, 0, -1.0, None);
    if idx.None? then None else Some((idx.value, best))
  }

  /** The scan is determined by the scores: any index that is a first
      maximum above -1 is the one `FirstBest` returns. */
  lemma FirstBestUnique(scores: seq<Option<real>>, k: nat)
    requires k < |scores| && scores[k].Some? && scores[k].value > -1.0
    requires forall m | 0 <= m < |scores| && scores[m].Some? :: scores[m].value <= scores[k].value
    requires forall m | 0 <= m < k && scores[m].Some? :: scores[m].value < scores[k].value
    ensures FirstBest(scores) == Some((k, scores[k].value))
  {
    var r := FirstBest(scores);
    assert r.Some?;
    var i := r.value.0;
    assert scores[i].value <= scores[k].value;
    assert !(i < k) && !(k < i);
  }
}
