/** Transitions between consecutive kept segments (`extract_transitions`). */
module Transitions {
  import opened Segmenter

  /** The pair `(end of segment k, start of segment k + 1)` for every pair of
      neighbouring segments. No minimum-angle filter is applied. */
  function ExtractTransitions(segs: seq<Segment>): (r: seq<(int, int)>)
    ensures |segs| < 2 ==> r == []
    ensures |segs| >= 2 ==> |r| == |segs| - 1
    ensures forall k :: 0 <= k < |r| ==> r[k] == (segs[k].fin, segs[k + 1].debut)
    decreases |segs|
  {
    if |segs| < 2 then []
    else [(segs[0].fin, segs[1].debut)] + ExtractTransitions(segs[1..])
  }

  /** Every transition jumps forward within `0..n-1`, and each one ends no
      later than the next one starts. */
  ghost predicate Forward(r: seq<(int, int)>, n: int)
  {
    && (forall k :: 0 <= k < |r| ==> 0 <= r[k].0 < r[k].1 < n)
    && (forall k :: 0 <= k < |r| - 1 ==> r[k].1 <= r[k + 1].0)
  }

  /** Over the segments the segmenter produces, every transition jumps
      forward (`i < j`), both ends index the signal, and transitions are in
      strictly increasing order. */
  lemma TransitionsIncrease(t: seq<real>, w: real, minSize: int)
    requires w >= 0.0
    ensures Forward(ExtractTransitions(Detect(t, w, minSize).segments), |t|)
  {
    SegmentsWellFormed(t, w, minSize);
    var segs := Detect(t, w, minSize).segments;
    var r := ExtractTransitions(segs);
    forall k | 0 <= k < |r|
      ensures 0 <= r[k].0 < r[k].1 < |t|
    {
      assert IsSegmentOf(t, segs[k], w, minSize);
      assert IsSegmentOf(t, segs[k + 1], w, minSize);
    }
    forall k | 0 <= k < |r| - 1
      ensures r[k].1 <= r[k + 1].0
    {
      assert IsSegmentOf(t, segs[k + 1], w, minSize);
      assert |r| == |segs| - 1;
      assert r[k + 1] == (segs[k + 1].fin, segs[k + 2].debut);
    }
  }

  /** Fewer than `2 * minSize` samples leave at most one segment, hence no
      transition at all. */
  lemma ShortSignalHasNoTransition(t: seq<real>, w: real, minSize: int)
    requires w >= 0.0 && minSize >= 1 && |t| < 2 * minSize
    ensures ExtractTransitions(Detect(t, w, minSize).segments) == []
  {
    SegmentCountBound(t, w, minSize);
  }
}
