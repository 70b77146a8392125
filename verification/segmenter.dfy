/** Range-bounded plateau segmentation of a real-valued signal
    (`detect_segments_fourchette`).

    From index `i` a candidate window is extended one sample at a time while
    `max - min` of the window stays within the width; on the first violation
    the window steps back one index. The window is kept as a segment only if
    it holds at least `minSize` samples, and scanning resumes right after it,
    so discarded samples are never revisited. */
module Segmenter {

  /** Smallest value of a non-empty sequence (Python's `min`). */
  function Min(s: seq<real>): real
    requires |s| > 0
  {
    if |s| == 1 then s[0]
    else
      var m := Min(s[1..]);
      if s[0] <= m then s[0] else m
  }

  /** Largest value of a non-empty sequence (Python's `max`). */
  function Max(s: seq<real>): real
    requires |s| > 0
  {
    if |s| == 1 then s[0]
    else
      var m := Max(s[1..]);
      if s[0] >= m then s[0] else m
  }

  /** The spread `max - min` of a non-empty window (the source's `fourchette`). */
  function Range(s: seq<real>): real
    requires |s| > 0
  {
    Max(s) - Min(s)
  }

  /** Index at which the inner scan of the window opened at `debut` ends,
      when it has reached `fin` (the windows `t[debut..f+1]` for `f < fin`
      fitted). This folds in the clamp of an index that ran off the end. */
  function ScanEnd(t: seq<real>, debut: int, fin: int, w: real): (r: int)
    requires 0 <= debut <= fin <= |t|
    ensures fin - 1 <= r < |t|
    decreases |t| - fin
  {
    if fin == |t| then |t| - 1
    else if Range(t[debut..fin + 1]) > w then fin - 1
    else ScanEnd(t, debut, fin + 1, w)
  }

  /** A candidate window `t[debut..fin]`, both ends inclusive. */
  datatype Window = Window(debut: int, fin: int)

  function Size(v: Window): int
  {
    v.fin - v.debut + 1
  }

  /** Every candidate window, kept or discarded, opened from index `i` on. */
  function Windows(t: seq<real>, i: int, w: real): seq<Window>
    requires 0 <= i <= |t| && w >= 0.0
    decreases |t| - i
  {
    if i == |t| then []
    else
      var e := ScanEnd(t, i, i, w);
      [Window(i, e)] + Windows(t, e + 1, w)
  }

  /** One kept segment: the dictionary built by the source. */
  datatype Segment = Segment(debut: int, fin: int, valeurs: seq<real>,
                             min: real, max: real, fourchette: real)

  predicate InBounds(t: seq<real>, ws: seq<Window>)
  {
    forall k :: 0 <= k < |ws| ==> 0 <= ws[k].debut <= ws[k].fin < |t|
  }

  function MakeSegment(t: seq<real>, v: Window): Segment
    requires 0 <= v.debut <= v.fin < |t|
  {
    var values := t[v.debut..v.fin + 1];
    Segment(v.debut, v.fin, values, Min(values), Max(values), Max(values) - Min(values))
  }

  /** The segments made from those windows that hold at least `minSize` samples. */
  function KeepLong(t: seq<real>, ws: seq<Window>, minSize: int): seq<Segment>
    requires InBounds(t, ws)
    decreases |ws|
  {
    if |ws| == 0 then []
    else
      var rest := KeepLong(t, ws[1..], minSize);
      if Size(ws[0]) >= minSize then [MakeSegment(t, ws[0])] + rest else rest
  }

  /** What a call of the segmenter comes to. A negative width makes the very
      first window empty: the source then either loops for ever without
      advancing (`Hangs`) or, when `minSize <= 0`, keeps the empty window and
      fails computing `min([])` (`EmptyWindowError`). */
  datatype Detection = Found(segments: seq<Segment>) | Hangs | EmptyWindowError

  /** Reference definition of the segmenter. */
  function Detect(t: seq<real>, w: real, minSize: int): (r: Detection)
    ensures r.Found? <==> (w >= 0.0 || |t| == 0 || |t| < minSize)
  {
    if |t| < minSize || |t| == 0 then Found([])
    else if w < 0.0 then (if minSize <= 0 then EmptyWindowError else Hangs)
    else
      WindowsInBounds(t, 0, w);
      Found(KeepLong(t, Windows(t, 0, w), minSize))
  }

  /** The inner loop: widens the window opened at `debut` one sample at a
      time and steps back once it overflows. */
  method WidenWindow(t: seq<real>, debut: int, w: real) returns (fin: int)
    requires 0 <= debut < |t|
    ensures fin == ScanEnd(t, debut, debut, w)
  {
    fin := debut;
    while fin < |t|
      invariant debut <= fin <= |t|
      invariant ScanEnd(t, debut, fin, w) == ScanEnd(t, debut, debut, w)
      decreases |t| - fin
    {
      var values := t[debut..fin + 1];
      if Max(values) - Min(values) > w {
        fin := fin - 1;
        return;
      }
      fin := fin + 1;
    }
    fin := |t| - 1;
  }

  /** The loop invariant of `DetectSegments` survives one turn of the
      outer loop: the segments found so far, extended by the window opened
      at `i` when it is long enough, prefix what is left to keep after it. */
  lemma LoopStep(t: seq<real>, i: int, w: real, minSize: int, found: seq<Segment>, all: seq<Segment>)
    requires 0 <= i < |t| && w >= 0.0 && InBounds(t, Windows(t, i, w))
    requires found + KeepLong(t, Windows(t, i, w), minSize) == all
    ensures var e := ScanEnd(t, i, i, w);
      && i <= e < |t|
      && InBounds(t, Windows(t, e + 1, w))
      && (if e - i + 1 >= minSize then found + [MakeSegment(t, Window(i, e))] else found)
         + KeepLong(t, Windows(t, e + 1, w), minSize) == all
  {
    var e := ScanEnd(t, i, i, w);
    KeptStep(t, i, w, minSize);
    var rest := KeepLong(t, Windows(t, e + 1, w), minSize);
    if e - i + 1 >= minSize {
      var next := MakeSegment(t, Window(i, e));
      assert found + ([next] + rest) == (found + [next]) + rest;
    }
  }

  /** One turn of the outer loop: the window opened at `i` is kept when it
      is long enough, and the scan resumes after it. */
  lemma KeptStep(t: seq<real>, i: int, w: real, minSize: int)
    requires 0 <= i < |t| && w >= 0.0
    ensures var e := ScanEnd(t, i, i, w);
      && i <= e < |t|
      && InBounds(t, Windows(t, i, w))
      && InBounds(t, Windows(t, e + 1, w))
      && (e - i + 1 >= minSize ==>
            KeepLong(t, Windows(t, i, w), minSize)
            == [MakeSegment(t, Window(i, e))] + KeepLong(t, Windows(t, e + 1, w), minSize))
      && (e - i + 1 < minSize ==>
            KeepLong(t, Windows(t, i, w), minSize) == KeepLong(t, Windows(t, e + 1, w), minSize))
  {
    var e := ScanEnd(t, i, i, w);
    ScanEndProgress(t, i, w);
    WindowsInBounds(t, i, w);
    WindowsInBounds(t, e + 1, w);
    var ws := Windows(t, i, w);
    assert ws[0] == Window(i, e) && ws[1..] == Windows(t, e + 1, w);
  }

  /** The segmenter as the source writes it: an outer loop over window
      starts and an inner loop that widens the window until it overflows. */
  method DetectSegments(t: seq<real>, w: real, minSize: int) returns (r: Detection)
    ensures r == Detect(t, w, minSize)
  {
    if |t| < minSize || |t| == 0 {
      return Found([]);
    }
    if w < 0.0 {
      // The singleton window already overflows, so `fin` steps back to `i - 1`.
      if minSize <= 0 {
        return EmptyWindowError;
      }
      return Hangs;
    }
    WindowsInBounds(t, 0, w);
    ghost var all := KeepLong(t, Windows(t, 0, w), minSize);
    var segments: seq<Segment> := [];
    var i := 0;
    while i < |t|
      invariant 0 <= i <= |t|
      invariant InBounds(t, Windows(t, i, w))
      invariant segments + KeepLong(t, Windows(t, i, w), minSize) == all
      decreases |t| - i
    {
      var debut := i;
      var fin := WidenWindow(t, debut, w);
      LoopStep(t, i, w, minSize, segments, all);
      var size := fin - debut + 1;
      if size >= minSize {
        segments := segments + [MakeSegment(t, Window(debut, fin))];
      }
      i := fin + 1;
    }
    return Found(segments);
  }

  // ---------------------------------------------------------------------
  // Facts about windows and their spread

  /** `Min` and `Max` are attained in the window and bound every sample of it. */
  lemma {:induction false} MinMaxBounds(s: seq<real>)
    requires |s| > 0
    ensures exists k :: 0 <= k < |s| && s[k] == Min(s)
    ensures exists k :: 0 <= k < |s| && s[k] == Max(s)
    ensures forall k :: 0 <= k < |s| ==> Min(s) <= s[k] <= Max(s)
  {
    if |s| > 1 {
      var tail := s[1..];
      MinMaxBounds(tail);
      var lo :| 0 <= lo < |tail| && tail[lo] == Min(tail);
      var hi :| 0 <= hi < |tail| && tail[hi] == Max(tail);
      assert s[lo + 1] == tail[lo] && s[hi + 1] == tail[hi];
      if s[0] <= Min(tail) { assert s[0] == Min(s); } else { assert s[lo + 1] == Min(s); }
      if s[0] >= Max(tail) { assert s[0] == Max(s); } else { assert s[hi + 1] == Max(s); }
      forall k | 1 <= k < |s|
        ensures Min(s) <= s[k] <= Max(s)
      {
        assert s[k] == tail[k - 1];
      }
    } else {
      assert s[0] == Min(s) && s[0] == Max(s);
    }
  }

  /** Shrinking a window can only narrow its spread. */
  lemma RangeOfSubwindow(t: seq<real>, a: int, b: int, c: int, d: int)
    requires 0 <= a <= b < c <= d <= |t|
    ensures Range(t[b..c]) <= Range(t[a..d])
  {
    var inner, outer := t[b..c], t[a..d];
    MinMaxBounds(inner);
    MinMaxBounds(outer);
    var lo :| 0 <= lo < |inner| && inner[lo] == Min(inner);
    var hi :| 0 <= hi < |inner| && inner[hi] == Max(inner);
    assert inner[lo] == outer[lo + b - a];
    assert inner[hi] == outer[hi + b - a];
  }

  /** A window whose samples all lie in `[lo, hi]` spreads at most `hi - lo`. */
  lemma RangeWithin(s: seq<real>, lo: real, hi: real)
    requires |s| > 0
    requires forall k :: 0 <= k < |s| ==> lo <= s[k] <= hi
    ensures Range(s) <= hi - lo
  {
    MinMaxBounds(s);
  }

  /** A window spreads at least as far as any two of its samples. */
  lemma RangeAtLeast(s: seq<real>, a: int, b: int)
    requires 0 <= a < |s| && 0 <= b < |s|
    ensures Range(s) >= s[b] - s[a]
  {
    MinMaxBounds(s);
  }

  /** A one-sample window has spread zero. */
  lemma SingletonRange(t: seq<real>, i: int)
    requires 0 <= i < |t|
    ensures Range(t[i..i + 1]) == 0.0
  {
  }

  /** The inner scan ends on a window that fits, and, unless it reached the
      end of the signal, the next sample would make it overflow. */
  lemma {:induction false} ScanEndFits(t: seq<real>, debut: int, fin: int, w: real)
    requires 0 <= debut <= fin <= |t|
    requires debut < fin ==> Range(t[debut..fin]) <= w
    ensures var e := ScanEnd(t, debut, fin, w);
      && (e >= debut ==> Range(t[debut..e + 1]) <= w)
      && (e + 1 < |t| ==> Range(t[debut..e + 2]) > w)
    decreases |t| - fin
  {
    if fin < |t| && Range(t[debut..fin + 1]) <= w {
      ScanEndFits(t, debut, fin + 1, w);
    }
  }

  /** With a non-negative width the window opened at `i` holds at least `t[i]`. */
  lemma ScanEndProgress(t: seq<real>, i: int, w: real)
    requires 0 <= i < |t| && w >= 0.0
    ensures ScanEnd(t, i, i, w) >= i
  {
    SingletonRange(t, i);
  }

  /** With a negative width the window opened at `i` ends at `i - 1`, so the
      next window opens at `i` again: the outer loop never advances. */
  lemma NegativeWidthNeverAdvances(t: seq<real>, i: int, w: real)
    requires 0 <= i < |t| && w < 0.0
    ensures ScanEnd(t, i, i, w) + 1 == i
  {
    SingletonRange(t, i);
  }

  /** The inner scan stops exactly at `e` when `t[debut..e]` fits and either
      `e` is the last index or adding `t[e + 1]` overflows. */
  lemma {:induction false} ScanEndAt(t: seq<real>, debut: int, fin: int, e: int, w: real)
    requires 0 <= debut <= fin <= e + 1 <= |t| && debut <= e
    requires Range(t[debut..e + 1]) <= w
    requires e + 1 == |t| || Range(t[debut..e + 2]) > w
    ensures ScanEnd(t, debut, fin, w) == e
    decreases |t| - fin
  {
    if fin < |t| && fin <= e {
      RangeOfSubwindow(t, debut, debut, fin + 1, e + 1);
      ScanEndAt(t, debut, fin + 1, e, w);
    }
  }

  lemma {:induction false} WindowsInBounds(t: seq<real>, i: int, w: real)
    requires 0 <= i <= |t| && w >= 0.0
    ensures InBounds(t, Windows(t, i, w))
    ensures forall k :: 0 <= k < |Windows(t, i, w)| ==> i <= Windows(t, i, w)[k].debut
    decreases |t| - i
  {
    if i < |t| {
      var e := ScanEnd(t, i, i, w);
      ScanEndProgress(t, i, w);
      WindowsInBounds(t, e + 1, w);
    }
  }

  /** Candidate windows cover `i..|t|-1` contiguously and without overlap:
      the first opens at `i`, each next one opens right after the previous
      one ends, and the last ends on the last sample. */
  ghost predicate Tiles(t: seq<real>, i: int, ws: seq<Window>)
  {
    && (|ws| == 0 <==> i == |t|)
    && (|ws| > 0 ==> ws[0].debut == i && ws[|ws| - 1].fin == |t| - 1)
    && (forall k :: 0 <= k < |ws| ==> i <= ws[k].debut <= ws[k].fin < |t|)
    && (forall k :: 0 <= k < |ws| - 1 ==> ws[k + 1].debut == ws[k].fin + 1)
  }

  /** Each window fits within the width and is greedy-maximal: it ends on
      the last sample or one more sample would overflow it (an overflow is
      a spread strictly above the width). */
  ghost predicate Greedy(t: seq<real>, w: real, ws: seq<Window>)
    requires InBounds(t, ws)
  {
    forall k :: 0 <= k < |ws| ==> Maximal(t, w, ws[k])
  }

  /** The window's spread is within `w`, and taking one more sample would
      break that (or there is none left). */
  ghost predicate Maximal(t: seq<real>, w: real, v: Window)
    requires 0 <= v.debut <= v.fin < |t|
  {
    && Range(t[v.debut..v.fin + 1]) <= w
    && (v.fin == |t| - 1 || Range(t[v.debut..v.fin + 2]) > w)
  }

  lemma {:induction false} WindowsTile(t: seq<real>, i: int, w: real)
    requires 0 <= i <= |t| && w >= 0.0
    ensures Tiles(t, i, Windows(t, i, w))
    decreases |t| - i
  {
    if i < |t| {
      var e := ScanEnd(t, i, i, w);
      ScanEndProgress(t, i, w);
      WindowsTile(t, e + 1, w);
      var rest := Windows(t, e + 1, w);
      var ws := Windows(t, i, w);
      assert ws == [Window(i, e)] + rest;
      forall k | 1 <= k < |ws|
        ensures ws[k] == rest[k - 1]
      {
      }
    }
  }

  lemma {:induction false} WindowsGreedy(t: seq<real>, i: int, w: real)
    requires 0 <= i <= |t| && w >= 0.0
    ensures InBounds(t, Windows(t, i, w))
    ensures Greedy(t, w, Windows(t, i, w))
    decreases |t| - i
  {
    WindowsInBounds(t, i, w);
    if i < |t| {
      var e := ScanEnd(t, i, i, w);
      ScanEndProgress(t, i, w);
      ScanEndFits(t, i, i, w);
      assert Maximal(t, w, Window(i, e));
      WindowsGreedy(t, e + 1, w);
      var rest := Windows(t, e + 1, w);
      var ws := Windows(t, i, w);
      assert ws == [Window(i, e)] + rest;
      forall k | 0 <= k < |ws|
        ensures Maximal(t, w, ws[k])
      {
        if k > 0 {
          assert ws[k] == rest[k - 1];
        }
      }
    }
  }

  /** The candidate windows of the whole signal tile it and are greedy. */
  lemma CandidateWindows(t: seq<real>, w: real)
    requires w >= 0.0
    ensures InBounds(t, Windows(t, 0, w))
    ensures Tiles(t, 0, Windows(t, 0, w))
    ensures Greedy(t, w, Windows(t, 0, w))
  {
    WindowsTile(t, 0, w);
    WindowsGreedy(t, 0, w);
  }

  // ---------------------------------------------------------------------
  // Facts about the kept segments

  /** `s` is a segment of `t` as the source builds it: in bounds, long
      enough, carrying exactly the slice `t[debut..fin]`, its min, max and
      spread, and the spread is within the width. */
  ghost predicate IsSegmentOf(t: seq<real>, s: Segment, w: real, minSize: int)
  {
    && 0 <= s.debut <= s.fin < |t|
    && s.fin - s.debut + 1 >= minSize
    && s.valeurs == t[s.debut..s.fin + 1]
    && s.min == Min(s.valeurs)
    && s.max == Max(s.valeurs)
    && s.fourchette == s.max - s.min
    && s.fourchette <= w
  }

  /** Segments are disjoint and in strictly increasing index order. */
  ghost predicate Increasing(segs: seq<Segment>)
  {
    forall k :: 0 <= k < |segs| - 1 ==> segs[k].fin < segs[k + 1].debut
  }

  lemma {:induction false} KeptFrom(t: seq<real>, i: int, w: real, minSize: int)
    requires 0 <= i <= |t| && w >= 0.0
    ensures InBounds(t, Windows(t, i, w))
    ensures var segs := KeepLong(t, Windows(t, i, w), minSize);
      && (forall k :: 0 <= k < |segs| ==> IsSegmentOf(t, segs[k], w, minSize) && i <= segs[k].debut)
      && Increasing(segs)
    decreases |t| - i
  {
    WindowsInBounds(t, i, w);
    if i < |t| {
      var e := ScanEnd(t, i, i, w);
      ScanEndProgress(t, i, w);
      ScanEndFits(t, i, i, w);
      KeptFrom(t, e + 1, w, minSize);
      var ws := Windows(t, i, w);
      assert ws == [Window(i, e)] + Windows(t, e + 1, w);
      assert ws[1..] == Windows(t, e + 1, w);
    }
  }

  /** Every kept segment is a well-formed segment of the signal, and the
      segments are disjoint and strictly increasing. */
  lemma SegmentsWellFormed(t: seq<real>, w: real, minSize: int)
    requires w >= 0.0
    ensures Detect(t, w, minSize).Found?
    ensures var segs := Detect(t, w, minSize).segments;
      && (forall k :: 0 <= k < |segs| ==> IsSegmentOf(t, segs[k], w, minSize))
      && Increasing(segs)
  {
    if |t| >= minSize && |t| > 0 {
      KeptFrom(t, 0, w, minSize);
    }
  }

  function Bounds(s: Segment): Window
  {
    Window(s.debut, s.fin)
  }

  lemma {:induction false} KeepLongMembers(t: seq<real>, ws: seq<Window>, minSize: int, v: Window)
    requires InBounds(t, ws)
    ensures (exists s :: s in KeepLong(t, ws, minSize) && Bounds(s) == v)
            <==> v in ws && Size(v) >= minSize
    decreases |ws|
  {
    if |ws| > 0 {
      KeepLongMembers(t, ws[1..], minSize, v);
      var rest := KeepLong(t, ws[1..], minSize);
      if Size(ws[0]) >= minSize {
        var s0 := MakeSegment(t, ws[0]);
        assert KeepLong(t, ws, minSize) == [s0] + rest;
        assert Bounds(s0) == ws[0];
        if v in ws && Size(v) >= minSize && v != ws[0] {
          assert v in ws[1..];
        }
      } else {
        if v in ws && Size(v) >= minSize {
          assert v in ws[1..];
        }
      }
    }
  }

  /** A candidate window becomes a segment exactly when it holds at least
      `minSize` samples: long windows are all kept and short ones dropped. */
  lemma KeptIffLongEnough(t: seq<real>, w: real, minSize: int, v: Window)
    requires w >= 0.0
    ensures (exists s :: s in Detect(t, w, minSize).segments && Bounds(s) == v)
            <==> v in Windows(t, 0, w) && Size(v) >= minSize
  {
    WindowsInBounds(t, 0, w);
    WindowsTile(t, 0, w);
    KeepLongMembers(t, Windows(t, 0, w), minSize, v);
    if |t| < minSize && v in Windows(t, 0, w) {
      var ws := Windows(t, 0, w);
      var k :| 0 <= k < |ws| && ws[k] == v;
    }
  }

  lemma {:induction false} CountFrom(t: seq<real>, i: int, w: real, minSize: int)
    requires 0 <= i <= |t| && w >= 0.0 && minSize >= 1
    ensures InBounds(t, Windows(t, i, w))
    ensures |KeepLong(t, Windows(t, i, w), minSize)| * minSize <= |t| - i
    decreases |t| - i
  {
    WindowsInBounds(t, i, w);
    if i < |t| {
      var e := ScanEnd(t, i, i, w);
      ScanEndProgress(t, i, w);
      CountFrom(t, e + 1, w, minSize);
      var ws := Windows(t, i, w);
      var rest := KeepLong(t, Windows(t, e + 1, w), minSize);
      assert ws[0] == Window(i, e) && ws[1..] == Windows(t, e + 1, w);
      assert |KeepLong(t, ws, minSize)| == |rest| + (if Size(ws[0]) >= minSize then 1 else 0);
      MulSucc(|rest|, minSize);
    }
  }

  lemma MulSucc(n: int, m: int)
    ensures (n + 1) * m == n * m + m
  {
  }

  lemma MulMono(a: int, b: int, m: int)
    requires a >= b && m >= 0
    ensures a * m >= b * m
  {
  }

  /** Kept segments are disjoint and each holds `minSize` samples, so there
      are at most `|t| / minSize` of them; in particular a signal shorter
      than `2 * minSize` has at most one segment and thus no transition. */
  lemma SegmentCountBound(t: seq<real>, w: real, minSize: int)
    requires w >= 0.0 && minSize >= 1
    ensures |Detect(t, w, minSize).segments| * minSize <= |t|
    ensures |t| < 2 * minSize ==> |Detect(t, w, minSize).segments| <= 1
  {
    if |t| >= minSize && |t| > 0 {
      CountFrom(t, 0, w, minSize);
    }
    var n := |Detect(t, w, minSize).segments|;
    if n >= 2 {
      MulMono(n, 2, minSize);
    }
  }
}
