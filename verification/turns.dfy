/** Turn detection for one aircraft (`detect_turns`) and the turn-point
    estimate for one transition (`estimate_turn_point_from_indices`).

    Two collaborators are parameters: `unwrap`, the phase unwrapping of the
    heading sequence, and `intersect`, which extends the two rays a fixed
    distance in the flat-earth approximation and intersects the resulting
    segments, answering `None` when the intersection is empty or is not a
    single point. */
module Turns {
  import opened Wrappers
  import opened Segmenter
  import opened Transitions
  import opened Angles

  /** One row of the position-report ledger; `timestamp` is in seconds. */
  datatype Report = Report(timestamp: int, callsign: Option<string>, regis: Option<string>,
                           hex: string, alt: Option<int>, lat: real, lon: real,
                           track: Option<real>)

  /** A half-line from `(lat, lon)` along `heading` degrees. */
  datatype Ray = Ray(lat: real, lon: real, heading: real)

  /** A point of the planar approximation. */
  datatype Point = Point(lon: real, lat: real)

  /** One row of the turn ledger. */
  datatype Turn = Turn(timestamp: int, callsign: Option<string>, regis: Option<string>,
                       hex: string, lat: real, lon: real)

  /** Fewest rows, and fewest rows with a heading, worth analysing. */
  const MinRows := 6
  /** Width and minimum length handed to the segmenter. */
  const SegmentWidth := 2.0
  const SegmentMinSize := 2

  /** `t_i + (t_j - t_i) / 2`, written out with whole seconds: the half
      second of an odd gap is dropped when the turn is formatted. */
  function Midpoint(a: int, b: int): (m: int)
    ensures a <= b ==> a <= m <= b
    ensures 2 * m <= a + b < 2 * m + 2
  {
    a + (b - a) / 2
  }

  /** The midpoint moves forward when either end does. */
  lemma MidpointMonotone(a: int, b: int, c: int, d: int)
    requires a <= c && b <= d
    ensures Midpoint(a, b) <= Midpoint(c, d)
  {
  }

  /** The turn point for the transition from report `pi` to report `pj`:
      identity from `pi`, time halfway, position where the ray along `pi`'s
      heading meets the ray from `pj` pointing back along its reversed
      heading, or halfway between the two positions when they do not meet in
      a single point. */
  function EstimateTurnPoint(pi: Report, pj: Report, intersect: (Ray, Ray) -> Option<Point>): (turn: Turn)
    requires pi.track.Some? && pj.track.Some?
    ensures pi.timestamp <= pj.timestamp ==> pi.timestamp <= turn.timestamp <= pj.timestamp
    ensures 2 * turn.timestamp <= pi.timestamp + pj.timestamp < 2 * turn.timestamp + 2
    ensures turn.callsign == pi.callsign && turn.regis == pi.regis && turn.hex == pi.hex
    ensures match intersect(Ray(pi.lat, pi.lon, pi.track.value),
                            Ray(pj.lat, pj.lon, ReverseHeading(pj.track.value)))
            case Some(p) => turn.lat == p.lat && turn.lon == p.lon
            case None => 2.0 * turn.lat == pi.lat + pj.lat && 2.0 * turn.lon == pi.lon + pj.lon
  {
    var rayI := Ray(pi.lat, pi.lon, pi.track.value);
    var rayJ := Ray(pj.lat, pj.lon, ReverseHeading(pj.track.value));
    var position := match intersect(rayI, rayJ)
      case Some(p) => p
      case None => Point((pi.lon + pj.lon) / 2.0, (pi.lat + pj.lat) / 2.0);
    Turn(Midpoint(pi.timestamp, pj.timestamp), pi.callsign, pi.regis, pi.hex,
         position.lat, position.lon)
  }

  /** The rows that carry a heading, in their original order (`dropna`). */
  function WithTrack(rows: seq<Report>): (valid: seq<Report>)
    ensures |valid| <= |rows|
    ensures forall k :: 0 <= k < |valid| ==> valid[k].track.Some?
    ensures forall r :: r in valid <==> r in rows && r.track.Some?
  {
    if |rows| == 0 then []
    else if rows[0].track.Some? then [rows[0]] + WithTrack(rows[1..])
    else WithTrack(rows[1..])
  }

  /** `dropna` keeps the tracked rows in their order and with their
      repeats: filtering a concatenation filters each part. */
  lemma {:induction false} WithTrackAppend(a: seq<Report>, b: seq<Report>)
    ensures WithTrack(a + b) == WithTrack(a) + WithTrack(b)
    decreases |a|
  {
    if |a| == 0 {
      assert a + b == b;
    } else {
      assert (a + b)[1..] == a[1..] + b;
      WithTrackAppend(a[1..], b);
    }
  }

  /** Rows that all carry a heading are all kept, and rows that carry none
      are all dropped. */
  lemma {:induction false} WithTrackAll(rows: seq<Report>)
    ensures (forall k :: 0 <= k < |rows| ==> rows[k].track.Some?) ==> WithTrack(rows) == rows
    ensures (forall k :: 0 <= k < |rows| ==> rows[k].track.None?) ==> WithTrack(rows) == []
    decreases |rows|
  {
    if |rows| > 0 {
      WithTrackAll(rows[1..]);
      assert forall k :: 0 <= k < |rows[1..]| ==> rows[1..][k] == rows[k + 1];
      assert rows == [rows[0]] + rows[1..];
    }
  }

  function Tracks(valid: seq<Report>): (headings: seq<real>)
    requires forall k :: 0 <= k < |valid| ==> valid[k].track.Some?
    ensures |headings| == |valid|
    ensures forall k :: 0 <= k < |valid| ==> headings[k] == valid[k].track.value
  {
    seq(|valid|, k requires 0 <= k < |valid| => valid[k].track.value)
  }

  /** Phase unwrapping keeps one value per sample. */
  ghost predicate LengthPreserving(unwrap: seq<real> -> seq<real>)
  {
    forall s :: |unwrap(s)| == |s|
  }

  /** One turn per transition, in transition order. */
  function TurnsAt(valid: seq<Report>, transitions: seq<(int, int)>,
                   intersect: (Ray, Ray) -> Option<Point>): (turns: seq<Turn>)
    requires forall k :: 0 <= k < |valid| ==> valid[k].track.Some?
    requires Forward(transitions, |valid|)
    ensures |turns| == |transitions|
    ensures forall k :: 0 <= k < |turns| ==>
      turns[k] == EstimateTurnPoint(valid[transitions[k].0], valid[transitions[k].1], intersect)
    decreases |transitions|
  {
    if |transitions| == 0 then []
    else
      var (i, j) := transitions[0];
      [EstimateTurnPoint(valid[i], valid[j], intersect)] + TurnsAt(valid, transitions[1..], intersect)
  }

  /** The transitions of the unwrapped headings of the tracked rows. */
  function TrackTransitions(valid: seq<Report>, unwrap: seq<real> -> seq<real>): (r: seq<(int, int)>)
    requires forall k :: 0 <= k < |valid| ==> valid[k].track.Some?
    requires LengthPreserving(unwrap)
    ensures Forward(r, |valid|)
  {
    var headings := unwrap(Tracks(valid));
    assert |headings| == |valid|;
    TransitionsIncrease(headings, SegmentWidth, SegmentMinSize);
    ExtractTransitions(Detect(headings, SegmentWidth, SegmentMinSize).segments)
  }

  /** Turns of one aircraft, its rows sorted by time. */
  function DetectTurns(rows: seq<Report>, unwrap: seq<real> -> seq<real>,
                       intersect: (Ray, Ray) -> Option<Point>): (turns: seq<Turn>)
    requires LengthPreserving(unwrap)
    ensures |rows| < MinRows || |WithTrack(rows)| < MinRows ==> turns == []
    ensures forall k :: 0 <= k < |turns| ==>
      (exists r :: r in rows && r.track.Some? && turns[k].hex == r.hex
                   && turns[k].callsign == r.callsign && turns[k].regis == r.regis)
  {
    if |rows| < MinRows then []
    else
      var valid := WithTrack(rows);
      if |valid| < MinRows then []
      else
        var turns := TurnsAt(valid, TrackTransitions(valid, unwrap), intersect);
        assert forall k :: 0 <= k < |turns| ==>
          (exists i :: 0 <= i < |valid| && turns[k].hex == valid[i].hex
                       && turns[k].callsign == valid[i].callsign && turns[k].regis == valid[i].regis);
        turns
  }

  lemma DetectTurnsPastGuards(rows: seq<Report>, unwrap: seq<real> -> seq<real>,
                              intersect: (Ray, Ray) -> Option<Point>)
    requires LengthPreserving(unwrap)
    requires |rows| >= MinRows && |WithTrack(rows)| >= MinRows
    ensures DetectTurns(rows, unwrap, intersect)
            == TurnsAt(WithTrack(rows), TrackTransitions(WithTrack(rows), unwrap), intersect)
  {
  }

  /** Past the guards, turn `k` is the estimate for transition `k` of the
      tracked rows: one turn per transition, with no angle filter. */
  lemma TurnsFollowTransitions(rows: seq<Report>, unwrap: seq<real> -> seq<real>,
                               intersect: (Ray, Ray) -> Option<Point>)
    requires LengthPreserving(unwrap)
    requires |rows| >= MinRows && |WithTrack(rows)| >= MinRows
    ensures var valid := WithTrack(rows);
      var tr := TrackTransitions(valid, unwrap);
      var turns := DetectTurns(rows, unwrap, intersect);
      && |turns| == |tr|
      && forall k :: 0 <= k < |tr| ==>
           0 <= tr[k].0 < tr[k].1 < |valid|
           && turns[k] == EstimateTurnPoint(valid[tr[k].0], valid[tr[k].1], intersect)
  {
  }

  ghost predicate Chronological(rows: seq<Report>)
  {
    forall a, b :: 0 <= a < b < |rows| ==> rows[a].timestamp <= rows[b].timestamp
  }

  /** No report of `s` is older than `t`. */
  ghost predicate NotBefore(s: seq<Report>, t: int)
  {
    forall k :: 0 <= k < |s| ==> s[k].timestamp >= t
  }

  lemma ConsChronological(x: Report, rest: seq<Report>)
    requires Chronological(rest) && NotBefore(rest, x.timestamp)
    ensures Chronological([x] + rest)
  {
    var s := [x] + rest;
    forall a, b | 0 <= a < b < |s|
      ensures s[a].timestamp <= s[b].timestamp
    {
      assert s[b] == rest[b - 1];
      if a > 0 {
        assert s[a] == rest[a - 1];
      }
    }
  }

  lemma TailChronological(s: seq<Report>)
    requires Chronological(s) && |s| > 0
    ensures Chronological(s[1..]) && NotBefore(s[1..], s[0].timestamp)
  {
  }

  lemma {:induction false} WithTrackChronological(rows: seq<Report>)
    requires Chronological(rows)
    ensures Chronological(WithTrack(rows))
    decreases |rows|
  {
    if |rows| > 0 {
      TailChronological(rows);
      WithTrackChronological(rows[1..]);
      if rows[0].track.Some? {
        var rest := WithTrack(rows[1..]);
        forall k | 0 <= k < |rest|
          ensures rest[k].timestamp >= rows[0].timestamp
        {
          assert rest[k] in rows[1..];
          var c :| 0 <= c < |rows[1..]| && rows[1..][c] == rest[k];
        }
        ConsChronological(rows[0], rest);
      }
    }
  }

  lemma ChronologicalBounds(rows: seq<Report>, r: Report)
    requires Chronological(rows) && r in rows
    ensures rows[0].timestamp <= r.timestamp <= rows[|rows| - 1].timestamp
  {
    var i :| 0 <= i < |rows| && rows[i] == r;
  }

  lemma TurnsAtChronological(valid: seq<Report>, tr: seq<(int, int)>,
                             intersect: (Ray, Ray) -> Option<Point>)
    requires forall k :: 0 <= k < |valid| ==> valid[k].track.Some?
    requires Forward(tr, |valid|)
    requires Chronological(valid)
    ensures var turns := TurnsAt(valid, tr, intersect);
      forall k :: 0 <= k < |turns| - 1 ==> turns[k].timestamp <= turns[k + 1].timestamp
  {
    var turns := TurnsAt(valid, tr, intersect);
    forall k | 0 <= k < |turns| - 1
      ensures turns[k].timestamp <= turns[k + 1].timestamp
    {
      var a, b, c, d := valid[tr[k].0], valid[tr[k].1], valid[tr[k + 1].0], valid[tr[k + 1].1];
      assert a.timestamp <= c.timestamp && b.timestamp <= d.timestamp;
      MidpointMonotone(a.timestamp, b.timestamp, c.timestamp, d.timestamp);
    }
  }

  /** For rows in time order, turns come out in time order and every turn
      time lies within the span of the rows. */
  lemma TurnsChronological(rows: seq<Report>, unwrap: seq<real> -> seq<real>,
                           intersect: (Ray, Ray) -> Option<Point>)
    requires LengthPreserving(unwrap)
    requires Chronological(rows)
    ensures var turns := DetectTurns(rows, unwrap, intersect);
      && (forall k :: 0 <= k < |turns| - 1 ==> turns[k].timestamp <= turns[k + 1].timestamp)
      && (forall k :: 0 <= k < |turns| ==>
            rows[0].timestamp <= turns[k].timestamp <= rows[|rows| - 1].timestamp)
  {
    if |rows| >= MinRows && |WithTrack(rows)| >= MinRows {
      var valid := WithTrack(rows);
      var tr := TrackTransitions(valid, unwrap);
      var turns := TurnsAt(valid, tr, intersect);
      DetectTurnsPastGuards(rows, unwrap, intersect);
      WithTrackChronological(rows);
      TurnsAtChronological(valid, tr, intersect);
      forall k | 0 <= k < |turns|
        ensures rows[0].timestamp <= turns[k].timestamp <= rows[|rows| - 1].timestamp
      {
        var a, b := valid[tr[k].0], valid[tr[k].1];
        ChronologicalBounds(rows, a);
        ChronologicalBounds(rows, b);
        assert a.timestamp <= b.timestamp;
      }
    }
  }
}
