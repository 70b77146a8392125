/** The worked examples that accompany the segmenter, each computed by the
    reference definition. */
module SegmenterExamples {
  import opened Segmenter

  /** First and last index of each segment. */
  function Spans(segs: seq<Segment>): seq<(int, int)>
  {
    if |segs| == 0 then [] else [(segs[0].debut, segs[0].fin)] + Spans(segs[1..])
  }

  /** Every window at least `minSize` long is kept, in order. */
  lemma {:induction false} AllLongEnough(t: seq<real>, ws: seq<Window>, minSize: int)
    requires InBounds(t, ws)
    requires forall k :: 0 <= k < |ws| ==> Size(ws[k]) >= minSize
    ensures Spans(KeepLong(t, ws, minSize)) == seq(|ws|, k requires 0 <= k < |ws| => (ws[k].debut, ws[k].fin))
    decreases |ws|
  {
    if |ws| > 0 {
      AllLongEnough(t, ws[1..], minSize);
      var segs := KeepLong(t, ws, minSize);
      assert segs == [MakeSegment(t, ws[0])] + KeepLong(t, ws[1..], minSize);
      assert segs[1..] == KeepLong(t, ws[1..], minSize);
    }
  }

  /** The window opened at `i` is `t[i..e]`: it fits and is maximal. */
  lemma Step(t: seq<real>, i: int, e: int, w: real)
    requires 0 <= i <= e < |t| && w >= 0.0
    requires Range(t[i..e + 1]) <= w
    requires e + 1 == |t| || Range(t[i..e + 2]) > w
    ensures Windows(t, i, w) == [Window(i, e)] + Windows(t, e + 1, w)
  {
    ScanEndAt(t, i, i, e, w);
  }

  /** Samples `i..e` lie in a band `[lo, hi]` no wider than `w`, and the
      next sample (if any) is more than `w` away from sample `j` of the
      window: the window opened at `i` is `t[i..e]`. */
  lemma Plateau(t: seq<real>, i: int, e: int, w: real, lo: real, hi: real, j: int)
    requires 0 <= i <= e < |t| && 0.0 <= hi - lo <= w
    requires forall k :: i <= k <= e ==> lo <= t[k] <= hi
    requires e + 1 < |t| ==> i <= j <= e && (t[e + 1] - t[j] > w || t[j] - t[e + 1] > w)
    ensures Windows(t, i, w) == [Window(i, e)] + Windows(t, e + 1, w)
  {
    var window := t[i..e + 1];
    assert forall k :: 0 <= k < |window| ==> window[k] == t[i + k];
    RangeWithin(window, lo, hi);
    if e + 1 < |t| {
      RangeAtLeast(t[i..e + 2], j - i, e + 1 - i);
      RangeAtLeast(t[i..e + 2], e + 1 - i, j - i);
    }
    Step(t, i, e, w);
  }

  /** A too-short signal (two samples, at least three wanted) has no segment. */
  lemma SignalTooShort()
    ensures Detect([1.0, 1.1], 1.0, 3) == Found([])
  {
  }

  /** A perfectly constant signal is one segment covering every index. */
  lemma ConstantSignal(t: seq<real>)
    requires t == [5.0, 5.0, 5.0, 5.0, 5.0, 5.0]
    ensures Spans(Detect(t, 0.1, 2).segments) == [(0, 5)]
  {
    Plateau(t, 0, 5, 0.1, 5.0, 5.0, 0);
    var ws := [Window(0, 5)];
    assert Windows(t, 0, 0.1) == ws;
    AllLongEnough(t, ws, 2);
  }

  /** No window shorter than `minSize` is kept. */
  lemma {:induction false} NoneLongEnough(t: seq<real>, ws: seq<Window>, minSize: int)
    requires InBounds(t, ws)
    requires forall k :: 0 <= k < |ws| ==> Size(ws[k]) < minSize
    ensures KeepLong(t, ws, minSize) == []
    decreases |ws|
  {
    if |ws| > 0 {
      NoneLongEnough(t, ws[1..], minSize);
    }
  }

  /** A sample that differs from the next one by more than the width is a
      window on its own. */
  lemma Jump(t: seq<real>, i: int, w: real)
    requires 0 <= i < |t| && w >= 0.0
    requires i + 1 < |t| ==> t[i + 1] - t[i] > w || t[i] - t[i + 1] > w
    ensures Windows(t, i, w) == [Window(i, i)] + Windows(t, i + 1, w)
  {
    SingletonRange(t, i);
    if i + 1 < |t| {
      RangeAtLeast(t[i..i + 2], 0, 1);
      RangeAtLeast(t[i..i + 2], 1, 0);
    }
    Step(t, i, i, w);
  }

  /** A signal that jumps at every sample: every window holds one sample,
      so nothing is kept. */
  lemma VeryVariableSignal(t: seq<real>)
    requires t == [1.0, 10.0, 2.0, 15.0, 3.0, 20.0, 4.0, 25.0]
    ensures Detect(t, 2.0, 2) == Found([])
  {
    Singletons(t, 0, 2.0);
    NoneLongEnough(t, Windows(t, 0, 2.0), 2);
  }

  /** When every sample differs from the next by more than the width, every
      window from `i` on holds a single sample. */
  lemma {:induction false} Singletons(t: seq<real>, i: int, w: real)
    requires 0 <= i <= |t| && w >= 0.0
    requires forall k :: i <= k < |t| - 1 ==> t[k + 1] - t[k] > w || t[k] - t[k + 1] > w
    ensures InBounds(t, Windows(t, i, w))
    ensures forall k :: 0 <= k < |Windows(t, i, w)| ==> Size(Windows(t, i, w)[k]) == 1
    decreases |t| - i
  {
    WindowsInBounds(t, i, w);
    if i < |t| {
      Jump(t, i, w);
      Singletons(t, i + 1, w);
      var ws := Windows(t, i, w);
      var rest := Windows(t, i + 1, w);
      forall k | 0 <= k < |ws|
        ensures Size(ws[k]) == 1
      {
        if k > 0 {
          assert ws[k] == rest[k - 1];
        }
      }
    }
  }

  /** The first example: one outlier, then a plateau on indices 1..6. */
  lemma OutlierThenPlateau(t: seq<real>)
    requires t == [205.08, 201.42, 201.26, 200.96, 200.72, 200.6, 200.6]
    ensures Spans(Detect(t, 2.0, 2).segments) == [(1, 6)]
  {
    Plateau(t, 0, 0, 2.0, 205.08, 205.08, 0);
    Plateau(t, 1, 6, 2.0, 200.6, 201.42, 1);
    var ws := [Window(0, 0), Window(1, 6)];
    assert Windows(t, 0, 2.0) == ws;
    assert KeepLong(t, ws, 2) == KeepLong(t, ws[1..], 2);
    AllLongEnough(t, ws[1..], 2);
  }

  /** Four plateaus with width 0.6 and at least three samples each. */
  lemma FourPlateaus(t: seq<real>)
    requires t == [10.1, 10.3, 10.2, 10.4, 15.8, 15.9, 16.1, 15.7,
                   20.0, 20.2, 19.8, 20.1, 8.9, 9.1, 8.8]
    ensures Spans(Detect(t, 0.6, 3).segments) == [(0, 3), (4, 7), (8, 11), (12, 14)]
  {
    FourPlateausWindows(t);
    var ws := [Window(0, 3), Window(4, 7), Window(8, 11), Window(12, 14)];
    AllLongEnough(t, ws, 3);
  }

  /** The candidate windows of that signal. */
  lemma FourPlateausWindows(t: seq<real>)
    requires t == [10.1, 10.3, 10.2, 10.4, 15.8, 15.9, 16.1, 15.7,
                   20.0, 20.2, 19.8, 20.1, 8.9, 9.1, 8.8]
    ensures Windows(t, 0, 0.6) == [Window(0, 3), Window(4, 7), Window(8, 11), Window(12, 14)]
  {
    Plateau(t, 0, 3, 0.6, 10.1, 10.4, 0);
    Plateau(t, 4, 7, 0.6, 15.7, 16.1, 4);
    Plateau(t, 8, 11, 0.6, 19.8, 20.2, 8);
    Plateau(t, 12, 14, 0.6, 8.8, 9.1, 12);
  }

  /** A noisy signal with three plateaus, width 0.8, at least four samples. */
  lemma NoisyPlateaus(t: seq<real>)
    requires t == [50.1, 50.3, 49.8, 50.2, 50.4, 49.9, 45.1, 44.8, 45.3, 44.9, 45.0,
                   60.2, 59.8, 60.1, 59.9, 60.3, 60.0]
    ensures Spans(Detect(t, 0.8, 4).segments) == [(0, 5), (6, 10), (11, 16)]
  {
    NoisyPlateausWindows(t);
    var ws := [Window(0, 5), Window(6, 10), Window(11, 16)];
    AllLongEnough(t, ws, 4);
  }

  /** The candidate windows of that signal. */
  lemma NoisyPlateausWindows(t: seq<real>)
    requires t == [50.1, 50.3, 49.8, 50.2, 50.4, 49.9, 45.1, 44.8, 45.3, 44.9, 45.0,
                   60.2, 59.8, 60.1, 59.9, 60.3, 60.0]
    ensures Windows(t, 0, 0.8) == [Window(0, 5), Window(6, 10), Window(11, 16)]
  {
    Plateau(t, 0, 5, 0.8, 49.8, 50.4, 0);
    Plateau(t, 6, 10, 0.8, 44.8, 45.3, 6);
    Plateau(t, 11, 16, 0.8, 59.8, 60.3, 11);
  }

  /** A steady descent with width 5: a window spreading exactly the width
      is accepted, so each plateau holds six samples. */
  lemma GradualDescentWide(t: seq<real>)
    requires t == [100.0, 99.0, 98.0, 97.0, 96.0, 95.0, 94.0, 93.0,
                   92.0, 91.0, 90.0, 89.0, 88.0, 87.0, 86.0, 85.0]
    ensures Spans(Detect(t, 5.0, 4).segments) == [(0, 5), (6, 11), (12, 15)]
  {
    GradualDescentWideWindows(t);
    var ws := [Window(0, 5), Window(6, 11), Window(12, 15)];
    AllLongEnough(t, ws, 4);
  }

  /** The candidate windows of that signal. */
  lemma GradualDescentWideWindows(t: seq<real>)
    requires t == [100.0, 99.0, 98.0, 97.0, 96.0, 95.0, 94.0, 93.0,
                   92.0, 91.0, 90.0, 89.0, 88.0, 87.0, 86.0, 85.0]
    ensures Windows(t, 0, 5.0) == [Window(0, 5), Window(6, 11), Window(12, 15)]
  {
    Plateau(t, 0, 5, 5.0, 95.0, 100.0, 0);
    Plateau(t, 6, 11, 5.0, 89.0, 94.0, 6);
    Plateau(t, 12, 15, 5.0, 85.0, 88.0, 12);
  }

  /** A ninety-degree turn sampled as `90, 91, 89, 90, 92, 178, 179, 181,
      180` with width 2 and at least three samples: the second heading level
      spreads over 3 degrees, so it splits into two short windows and only
      the first level is kept; no transition, hence no turn, results. */
  lemma NinetyDegreeTurn(t: seq<real>)
    requires t == [90.0, 91.0, 89.0, 90.0, 92.0, 178.0, 179.0, 181.0, 180.0]
    ensures Spans(Detect(t, 2.0, 3).segments) == [(0, 3)]
  {
    NinetyDegreeTurnWindows(t);
    var ws := [Window(0, 3), Window(4, 4), Window(5, 6), Window(7, 8)];
    NoneLongEnough(t, ws[1..], 3);
    assert KeepLong(t, ws, 3) == [MakeSegment(t, ws[0])];
  }

  /** The candidate windows of that signal. */
  lemma NinetyDegreeTurnWindows(t: seq<real>)
    requires t == [90.0, 91.0, 89.0, 90.0, 92.0, 178.0, 179.0, 181.0, 180.0]
    ensures Windows(t, 0, 2.0) == [Window(0, 3), Window(4, 4), Window(5, 6), Window(7, 8)]
  {
    Plateau(t, 0, 3, 2.0, 89.0, 91.0, 2);
    Plateau(t, 4, 4, 2.0, 92.0, 92.0, 4);
    Plateau(t, 5, 6, 2.0, 178.0, 179.0, 5);
    Plateau(t, 7, 8, 2.0, 180.0, 181.0, 7);
  }

  /** Keeping long windows distributes over concatenation. */
  lemma {:induction false} KeepLongAppend(t: seq<real>, a: seq<Window>, b: seq<Window>, minSize: int)
    requires InBounds(t, a) && InBounds(t, b)
    ensures InBounds(t, a + b)
    ensures KeepLong(t, a + b, minSize) == KeepLong(t, a, minSize) + KeepLong(t, b, minSize)
    decreases |a|
  {
    if |a| == 0 {
      assert a + b == b;
    } else {
      assert (a + b)[0] == a[0] && (a + b)[1..] == a[1..] + b;
      KeepLongAppend(t, a[1..], b, minSize);
      var ka, kb := KeepLong(t, a[1..], minSize), KeepLong(t, b, minSize);
      if Size(a[0]) >= minSize {
        assert [MakeSegment(t, a[0])] + (ka + kb) == [MakeSegment(t, a[0])] + ka + kb;
      }
    }
  }

  /** The same descent with width 2 and at least three samples: plateaus
      of three samples, and a last lone sample that is dropped. */
  lemma GradualDescentStrict(t: seq<real>)
    requires t == [100.0, 99.0, 98.0, 97.0, 96.0, 95.0, 94.0, 93.0,
                   92.0, 91.0, 90.0, 89.0, 88.0, 87.0, 86.0, 85.0]
    ensures Spans(Detect(t, 2.0, 3).segments) == [(0, 2), (3, 5), (6, 8), (9, 11), (12, 14)]
  {
    var kept := [Window(0, 2), Window(3, 5), Window(6, 8), Window(9, 11), Window(12, 14)];
    DescentWindows(t, kept);
    KeepLongAppend(t, kept, [Window(15, 15)], 3);
    NoneLongEnough(t, [Window(15, 15)], 3);
    assert Detect(t, 2.0, 3).segments == KeepLong(t, kept, 3);
    AllLongEnough(t, kept, 3);
  }

  lemma DescentWindows(t: seq<real>, kept: seq<Window>)
    requires t == [100.0, 99.0, 98.0, 97.0, 96.0, 95.0, 94.0, 93.0,
                   92.0, 91.0, 90.0, 89.0, 88.0, 87.0, 86.0, 85.0]
    requires kept == [Window(0, 2), Window(3, 5), Window(6, 8), Window(9, 11), Window(12, 14)]
    ensures Windows(t, 0, 2.0) == kept + [Window(15, 15)]
  {
    DescentRanges(t);
    Step(t, 0, 2, 2.0);
    Step(t, 3, 5, 2.0);
    Step(t, 6, 8, 2.0);
    Step(t, 9, 11, 2.0);
    Step(t, 12, 14, 2.0);
    Step(t, 15, 15, 2.0);
  }

  lemma DescentRanges(t: seq<real>)
    requires t == [100.0, 99.0, 98.0, 97.0, 96.0, 95.0, 94.0, 93.0,
                   92.0, 91.0, 90.0, 89.0, 88.0, 87.0, 86.0, 85.0]
    ensures Range(t[0..3]) <= 2.0 && Range(t[0..4]) > 2.0
    ensures Range(t[3..6]) <= 2.0 && Range(t[3..7]) > 2.0
    ensures Range(t[6..9]) <= 2.0 && Range(t[6..10]) > 2.0
    ensures Range(t[9..12]) <= 2.0 && Range(t[9..13]) > 2.0
    ensures Range(t[12..15]) <= 2.0 && Range(t[12..16]) > 2.0
    ensures Range(t[15..16]) <= 2.0
  {
    RangeWithin(t[0..3], 98.0, 100.0);
    RangeAtLeast(t[0..4], 3, 0);
    RangeWithin(t[3..6], 95.0, 97.0);
    RangeAtLeast(t[3..7], 3, 0);
    RangeWithin(t[6..9], 92.0, 94.0);
    RangeAtLeast(t[6..10], 3, 0);
    RangeWithin(t[9..12], 89.0, 91.0);
    RangeAtLeast(t[9..13], 3, 0);
    RangeWithin(t[12..15], 86.0, 88.0);
    RangeAtLeast(t[12..16], 3, 0);
    SingletonRange(t, 15);
  }

  /** The temperature series: four plateaus with width 0.5 ... */
  lemma TemperaturesNarrow(t: seq<real>)
    requires t == [22.1, 22.3, 22.0, 22.2, 25.8, 26.1, 25.9, 26.0, 25.7,
                   18.2, 18.4, 18.1, 18.3, 18.0, 30.1, 30.5, 30.3, 30.2, 30.4]
    ensures Spans(Detect(t, 0.5, 3).segments) == [(0, 3), (4, 8), (9, 13), (14, 18)]
  {
    TemperatureRanges(t);
    Step(t, 0, 3, 0.5);
    Step(t, 4, 8, 0.5);
    Step(t, 9, 13, 0.5);
    Step(t, 14, 18, 0.5);
    var ws := [Window(0, 3), Window(4, 8), Window(9, 13), Window(14, 18)];
    assert Windows(t, 0, 0.5) == ws;
    AllLongEnough(t, ws, 3);
  }

  /** ... and the same four with width 1.0. */
  lemma TemperaturesWide(t: seq<real>)
    requires t == [22.1, 22.3, 22.0, 22.2, 25.8, 26.1, 25.9, 26.0, 25.7,
                   18.2, 18.4, 18.1, 18.3, 18.0, 30.1, 30.5, 30.3, 30.2, 30.4]
    ensures Spans(Detect(t, 1.0, 3).segments) == [(0, 3), (4, 8), (9, 13), (14, 18)]
  {
    TemperatureRanges(t);
    Step(t, 0, 3, 1.0);
    Step(t, 4, 8, 1.0);
    Step(t, 9, 13, 1.0);
    Step(t, 14, 18, 1.0);
    var ws := [Window(0, 3), Window(4, 8), Window(9, 13), Window(14, 18)];
    assert Windows(t, 0, 1.0) == ws;
    AllLongEnough(t, ws, 3);
  }

  lemma TemperatureRanges(t: seq<real>)
    requires t == [22.1, 22.3, 22.0, 22.2, 25.8, 26.1, 25.9, 26.0, 25.7,
                   18.2, 18.4, 18.1, 18.3, 18.0, 30.1, 30.5, 30.3, 30.2, 30.4]
    ensures Range(t[0..4]) <= 0.5 && Range(t[0..5]) > 1.0
    ensures Range(t[4..9]) <= 0.5 && Range(t[4..10]) > 1.0
    ensures Range(t[9..14]) <= 0.5 && Range(t[9..15]) > 1.0
    ensures Range(t[14..19]) <= 0.5
  {
    RangeWithin(t[0..4], 22.0, 22.3);
    RangeAtLeast(t[0..5], 2, 4);
    RangeWithin(t[4..9], 25.7, 26.1);
    RangeAtLeast(t[4..10], 5, 4);
    RangeWithin(t[9..14], 18.0, 18.4);
    RangeAtLeast(t[9..15], 4, 5);
    RangeWithin(t[14..19], 30.1, 30.5);
  }
}
