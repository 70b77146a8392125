/** The periodic sweep of the position-report ledger
    (`process_aircraft_turns`): every aircraft with at least one report
    older than an hour is analysed, all of its reports are removed, and
    the reports of the other aircraft stay, in their order. */
module TrackStore {
  import opened Wrappers
  import opened Turns

  /** Reports strictly older than `now - RetentionSeconds` mark their aircraft as old. */
  const RetentionSeconds := 3600

  function Cutoff(now: int): int
  {
    now - RetentionSeconds
  }

  /** Aircraft `h` has a report strictly older than the cutoff. */
  ghost predicate IsOld(rows: seq<Report>, cutoff: int, h: string)
  {
    exists k :: 0 <= k < |rows| && rows[k].hex == h && rows[k].timestamp < cutoff
  }

  ghost predicate Distinct(s: seq<string>)
  {
    forall a, b :: 0 <= a < b < |s| ==> s[a] != s[b]
  }

  /** The hexes of the reports older than the cutoff, with repeats. */
  function OldRowHexes(rows: seq<Report>, cutoff: int): (hexes: seq<string>)
    ensures forall h :: h in hexes <==> IsOld(rows, cutoff, h)
  {
    if |rows| == 0 then []
    else
      var rest := OldRowHexes(rows[1..], cutoff);
      assert forall h :: IsOld(rows[1..], cutoff, h) ==> IsOld(rows, cutoff, h) by {
        forall h | IsOld(rows[1..], cutoff, h)
          ensures IsOld(rows, cutoff, h)
        {
          var k :| 0 <= k < |rows[1..]| && rows[1..][k].hex == h && rows[1..][k].timestamp < cutoff;
          assert rows[k + 1] == rows[1..][k];
        }
      }
      assert forall h :: IsOld(rows, cutoff, h) ==>
        (h == rows[0].hex && rows[0].timestamp < cutoff) || IsOld(rows[1..], cutoff, h) by {
        forall h | IsOld(rows, cutoff, h) && !(h == rows[0].hex && rows[0].timestamp < cutoff)
          ensures IsOld(rows[1..], cutoff, h)
        {
          var k :| 0 <= k < |rows| && rows[k].hex == h && rows[k].timestamp < cutoff;
          assert k > 0 && rows[1..][k - 1] == rows[k];
        }
      }
      if rows[0].timestamp < cutoff then [rows[0].hex] + rest else rest
  }

  /** First occurrences only, in order (`unique`). */
  function Unique(s: seq<string>): (u: seq<string>)
    ensures forall x :: x in u <==> x in s
    ensures Distinct(u)
  {
    if |s| == 0 then []
    else
      var u := Unique(s[..|s| - 1]);
      assert forall x :: x in s <==> x in s[..|s| - 1] || x == s[|s| - 1] by {
        assert s == s[..|s| - 1] + [s[|s| - 1]];
      }
      if s[|s| - 1] in u then u else u + [s[|s| - 1]]
  }

  /** The position of the first occurrence of `x` in `s`. */
  function FirstIndex(s: seq<string>, x: string): (i: nat)
    requires x in s
    ensures i < |s| && s[i] == x
    ensures forall k :: 0 <= k < i ==> s[k] != x
  {
    if s[0] == x then 0
    else
      assert x in s[1..];
      var i := FirstIndex(s[1..], x) + 1;
      assert forall k :: 1 <= k < i ==> s[k] == s[1..][k - 1];
      i
  }

  /** Any occurrence with no earlier one is the first occurrence. */
  lemma FirstIndexAt(s: seq<string>, x: string, i: nat)
    requires i < |s| && s[i] == x && forall k :: 0 <= k < i ==> s[k] != x
    ensures FirstIndex(s, x) == i
  {
  }

  /** `unique()` lists the values in the order of their first occurrence. */
  lemma {:induction false} UniqueFirstOccurrences(s: seq<string>)
    ensures forall i, j :: 0 <= i < j < |Unique(s)| ==> FirstIndex(s, Unique(s)[i]) < FirstIndex(s, Unique(s)[j])
    decreases |s|
  {
    if |s| > 0 {
      var p, x := s[..|s| - 1], s[|s| - 1];
      UniqueFirstOccurrences(p);
      var u := Unique(p);
      forall y | y in p
        ensures FirstIndex(s, y) == FirstIndex(p, y) < |p|
      {
        var f := FirstIndex(p, y);
        assert s[f] == p[f];
        assert forall k :: 0 <= k < f ==> s[k] == p[k];
        FirstIndexAt(s, y, f);
      }
      if x !in p {
        assert forall k :: 0 <= k < |p| ==> s[k] == p[k];
        FirstIndexAt(s, x, |p|);
        assert Unique(s) == u + [x];
        assert forall i :: 0 <= i < |u| ==> (u + [x])[i] == u[i] && u[i] in p;
      } else {
        assert Unique(s) == u;
        assert forall i :: 0 <= i < |u| ==> u[i] in p;
      }
    }
  }

  /** The aircraft to analyse and evict, each once. */
  function OldHexes(rows: seq<Report>, cutoff: int): (hexes: seq<string>)
    ensures forall h :: h in hexes <==> IsOld(rows, cutoff, h)
    ensures Distinct(hexes)
  {
    Unique(OldRowHexes(rows, cutoff))
  }

  /** The reports whose aircraft is not among `hexes`, in order. */
  function Retained(rows: seq<Report>, hexes: seq<string>): (kept: seq<Report>)
    ensures forall r :: r in kept <==> r in rows && r.hex !in hexes
  {
    if |rows| == 0 then []
    else if rows[0].hex in hexes then Retained(rows[1..], hexes)
    else [rows[0]] + Retained(rows[1..], hexes)
  }

  /** The reports whose aircraft is among `hexes`, in order. */
  function Evicted(rows: seq<Report>, hexes: seq<string>): (gone: seq<Report>)
    ensures forall r :: r in gone <==> r in rows && r.hex in hexes
  {
    if |rows| == 0 then []
    else if rows[0].hex in hexes then [rows[0]] + Evicted(rows[1..], hexes)
    else Evicted(rows[1..], hexes)
  }

  /** The reports of one aircraft, in order (`df[df['hex'] == hex_code]`). */
  function RowsOf(rows: seq<Report>, h: string): (mine: seq<Report>)
    ensures forall r :: r in mine <==> r in rows && r.hex == h
  {
    if |rows| == 0 then []
    else if rows[0].hex == h then [rows[0]] + RowsOf(rows[1..], h)
    else RowsOf(rows[1..], h)
  }

  // ---------------------------------------------------------------------
  // Sorting one aircraft's reports by time

  /** Puts `r` before the first report of `sorted` that is not older. */
  function Insert(r: Report, sorted: seq<Report>): (s: seq<Report>)
    ensures |s| == |sorted| + 1
    ensures multiset(s) == multiset(sorted) + multiset{r}
    ensures |WithTrack(s)| == |WithTrack(sorted)| + (if r.track.Some? then 1 else 0)
  {
    if |sorted| == 0 || r.timestamp <= sorted[0].timestamp then
      assert ([r] + sorted)[1..] == sorted;
      WithTrackCount([r] + sorted);
      [r] + sorted
    else
      var rest := Insert(r, sorted[1..]);
      assert ([sorted[0]] + rest)[1..] == rest;
      assert sorted == [sorted[0]] + sorted[1..];
      WithTrackCount([sorted[0]] + rest);
      WithTrackCount(sorted);
      [sorted[0]] + rest
  }

  lemma {:induction false} InsertNotBefore(r: Report, sorted: seq<Report>, t: int)
    requires NotBefore(sorted, t) && r.timestamp >= t
    ensures NotBefore(Insert(r, sorted), t)
    decreases |sorted|
  {
    if |sorted| > 0 && r.timestamp > sorted[0].timestamp {
      InsertNotBefore(r, sorted[1..], t);
      var rest := Insert(r, sorted[1..]);
      assert Insert(r, sorted) == [sorted[0]] + rest;
    }
  }

  lemma {:induction false} InsertChronological(r: Report, sorted: seq<Report>)
    requires Chronological(sorted)
    ensures Chronological(Insert(r, sorted))
    decreases |sorted|
  {
    if |sorted| == 0 {
      assert Insert(r, sorted) == [r];
    } else if r.timestamp <= sorted[0].timestamp {
      TailChronological(sorted);
      assert NotBefore(sorted, r.timestamp);
      ConsChronological(r, sorted);
    } else {
      TailChronological(sorted);
      InsertChronological(r, sorted[1..]);
      InsertNotBefore(r, sorted[1..], sorted[0].timestamp);
      ConsChronological(sorted[0], Insert(r, sorted[1..]));
    }
  }

  /** Insertion sort by timestamp; reports with equal times keep their order. */
  function SortByTime(rows: seq<Report>): (sorted: seq<Report>)
    ensures Chronological(sorted)
    ensures multiset(sorted) == multiset(rows)
    ensures |sorted| == |rows|
    ensures |WithTrack(sorted)| == |WithTrack(rows)|
  {
    if |rows| == 0 then []
    else
      var rest := SortByTime(rows[1..]);
      InsertChronological(rows[0], rest);
      assert rows == [rows[0]] + rows[1..];
      WithTrackCount(rows);
      Insert(rows[0], rest)
  }

  lemma WithTrackCount(rows: seq<Report>)
    requires |rows| > 0
    ensures |WithTrack(rows)| == |WithTrack(rows[1..])| + (if rows[0].track.Some? then 1 else 0)
  {
  }

  // ---------------------------------------------------------------------
  // The sweep

  /** The turns of one aircraft: its reports sorted by time, skipped when
      there are fewer than `MinRows` of them. */
  function AircraftTurns(rows: seq<Report>, h: string, unwrap: seq<real> -> seq<real>,
                         intersect: (Ray, Ray) -> Option<Point>): (turns: seq<Turn>)
    requires LengthPreserving(unwrap)
    ensures forall t :: t in turns ==> t.hex == h
    ensures |RowsOf(rows, h)| < MinRows || |WithTrack(RowsOf(rows, h))| < MinRows ==> turns == []
  {
    var data := SortByTime(RowsOf(rows, h));
    var turns := if |data| < MinRows then [] else DetectTurns(data, unwrap, intersect);
    assert forall t :: t in turns ==> t.hex == h by {
      forall t | t in turns
        ensures t.hex == h
      {
        var k :| 0 <= k < |turns| && turns[k] == t;
        var r :| r in data && r.track.Some? && t.hex == r.hex;
        assert r in multiset(data);
      }
    }
    turns
  }

  /** The turns of the listed aircraft, one aircraft after the other. */
  function TurnsForHexes(rows: seq<Report>, hexes: seq<string>, unwrap: seq<real> -> seq<real>,
                         intersect: (Ray, Ray) -> Option<Point>): (turns: seq<Turn>)
    requires LengthPreserving(unwrap)
    ensures forall t :: t in turns ==>
      && t.hex in hexes
      && |RowsOf(rows, t.hex)| >= MinRows
      && |WithTrack(RowsOf(rows, t.hex))| >= MinRows
  {
    if |hexes| == 0 then []
    else
      var mine := AircraftTurns(rows, hexes[0], unwrap, intersect);
      var rest := TurnsForHexes(rows, hexes[1..], unwrap, intersect);
      assert forall t :: t in mine + rest <==> t in mine || t in rest;
      mine + rest
  }

  /** The turns of aircraft `h`, in order. */
  function TurnsOf(turns: seq<Turn>, h: string): (mine: seq<Turn>)
    ensures forall t :: t in mine <==> t in turns && t.hex == h
  {
    if |turns| == 0 then []
    else if turns[0].hex == h then [turns[0]] + TurnsOf(turns[1..], h)
    else TurnsOf(turns[1..], h)
  }

  lemma {:induction false} TurnsOfAppend(a: seq<Turn>, b: seq<Turn>, h: string)
    ensures TurnsOf(a + b, h) == TurnsOf(a, h) + TurnsOf(b, h)
    decreases |a|
  {
    if |a| == 0 {
      assert a + b == b;
    } else {
      assert (a + b)[0] == a[0];
      assert (a + b)[1..] == a[1..] + b;
      TurnsOfAppend(a[1..], b, h);
    }
  }

  lemma {:induction false} TurnsOfAll(turns: seq<Turn>, h: string)
    requires forall t :: t in turns ==> t.hex == h
    ensures TurnsOf(turns, h) == turns
    decreases |turns|
  {
    if |turns| > 0 {
      assert turns[0] in turns;
      assert forall t :: t in turns[1..] ==> t in turns;
      TurnsOfAll(turns[1..], h);
      assert turns == [turns[0]] + turns[1..];
    }
  }

  lemma {:induction false} TurnsOfNone(turns: seq<Turn>, h: string)
    requires forall t :: t in turns ==> t.hex != h
    ensures TurnsOf(turns, h) == []
    decreases |turns|
  {
    if |turns| > 0 {
      assert turns[0] in turns;
      assert forall t :: t in turns[1..] ==> t in turns;
      TurnsOfNone(turns[1..], h);
    }
  }

  /** Among the turns of distinct aircraft, those of a listed aircraft are
      exactly its own turns, in their order. */
  lemma {:induction false} TurnsForHexesPerAircraft(rows: seq<Report>, hexes: seq<string>,
                                                    unwrap: seq<real> -> seq<real>,
                                                    intersect: (Ray, Ray) -> Option<Point>, h: string)
    requires LengthPreserving(unwrap)
    requires Distinct(hexes) && h in hexes
    ensures TurnsOf(TurnsForHexes(rows, hexes, unwrap, intersect), h) == AircraftTurns(rows, h, unwrap, intersect)
    decreases |hexes|
  {
    var mine := AircraftTurns(rows, hexes[0], unwrap, intersect);
    var rest := TurnsForHexes(rows, hexes[1..], unwrap, intersect);
    assert TurnsForHexes(rows, hexes, unwrap, intersect) == mine + rest;
    TurnsOfAppend(mine, rest, h);
    if hexes[0] == h {
      TurnsOfAll(mine, h);
      assert h !in hexes[1..] by {
        forall k | 0 <= k < |hexes| - 1
          ensures hexes[1..][k] != h
        {
          assert hexes[1..][k] == hexes[k + 1];
        }
      }
      TurnsOfNone(rest, h);
    } else {
      TurnsOfNone(mine, h);
      assert h in hexes[1..] by {
        var k :| 0 <= k < |hexes| && hexes[k] == h;
        assert hexes[1..][k - 1] == h;
      }
      TurnsForHexesPerAircraft(rows, hexes[1..], unwrap, intersect, h);
    }
  }

  datatype Sweep = Sweep(turns: seq<Turn>, remaining: seq<Report>)

  /** One sweep of the ledger at time `now`. */
  function ProcessAircraftTurns(rows: seq<Report>, now: int, unwrap: seq<real> -> seq<real>,
                                intersect: (Ray, Ray) -> Option<Point>): (result: Sweep)
    requires LengthPreserving(unwrap)
    ensures forall t :: t in result.turns ==> IsOld(rows, Cutoff(now), t.hex)
    ensures forall r :: r in result.remaining <==> r in rows && !IsOld(rows, Cutoff(now), r.hex)
    ensures forall r :: r in result.remaining ==> r.timestamp >= Cutoff(now)
  {
    var evict := OldHexes(rows, Cutoff(now));
    var remaining := Retained(rows, evict);
    assert forall r :: r in remaining ==> r.timestamp >= Cutoff(now) by {
      forall r | r in remaining
        ensures r.timestamp >= Cutoff(now)
      {
        var k :| 0 <= k < |rows| && rows[k] == r;
      }
    }
    Sweep(TurnsForHexes(rows, evict, unwrap, intersect), remaining)
  }

  /** Retaining distributes over concatenation: the kept reports appear in
      their original relative order. */
  lemma {:induction false} RetainedKeepsOrder(a: seq<Report>, b: seq<Report>, hexes: seq<string>)
    ensures Retained(a + b, hexes) == Retained(a, hexes) + Retained(b, hexes)
    decreases |a|
  {
    if |a| == 0 {
      assert a + b == b;
    } else {
      assert (a + b)[0] == a[0];
      assert (a + b)[1..] == a[1..] + b;
      RetainedKeepsOrder(a[1..], b, hexes);
      if a[0].hex !in hexes {
        assert Retained(a + b, hexes) == [a[0]] + Retained(a[1..] + b, hexes);
      }
    }
  }

  /** Every report is either kept or evicted, never both and never lost. */
  lemma {:induction false} RetainedEvictedPartition(rows: seq<Report>, hexes: seq<string>)
    ensures multiset(Retained(rows, hexes)) + multiset(Evicted(rows, hexes)) == multiset(rows)
    decreases |rows|
  {
    if |rows| > 0 {
      RetainedEvictedPartition(rows[1..], hexes);
      assert rows == [rows[0]] + rows[1..];
    }
  }

  /** An aircraft that fails either guard (too few reports, or too few with
      a heading) contributes no turn, yet is evicted all the same. */
  lemma ShortTrackEvictedWithoutTurns(rows: seq<Report>, now: int, unwrap: seq<real> -> seq<real>,
                                      intersect: (Ray, Ray) -> Option<Point>, h: string)
    requires LengthPreserving(unwrap)
    requires IsOld(rows, Cutoff(now), h)
    requires |RowsOf(rows, h)| < MinRows || |WithTrack(RowsOf(rows, h))| < MinRows
    ensures var result := ProcessAircraftTurns(rows, now, unwrap, intersect);
      && (forall t :: t in result.turns ==> t.hex != h)
      && (forall r :: r in result.remaining ==> r.hex != h)
  {
  }

  lemma {:induction false} RetainNothing(rows: seq<Report>)
    ensures Retained(rows, []) == rows
    decreases |rows|
  {
    if |rows| > 0 {
      RetainNothing(rows[1..]);
    }
  }

  lemma {:induction false} NoneOld(rows: seq<Report>, cutoff: int)
    requires NotBefore(rows, cutoff)
    ensures OldRowHexes(rows, cutoff) == []
    decreases |rows|
  {
    if |rows| > 0 {
      NoneOld(rows[1..], cutoff);
    }
  }

  /** A second sweep at the same time finds nothing old: no turn, and every
      report stays where it is. */
  lemma SweepIdempotent(rows: seq<Report>, now: int, unwrap: seq<real> -> seq<real>,
                        intersect: (Ray, Ray) -> Option<Point>)
    requires LengthPreserving(unwrap)
    ensures var once := ProcessAircraftTurns(rows, now, unwrap, intersect);
      ProcessAircraftTurns(once.remaining, now, unwrap, intersect) == Sweep([], once.remaining)
  {
    var once := ProcessAircraftTurns(rows, now, unwrap, intersect);
    var kept := once.remaining;
    forall k | 0 <= k < |kept|
      ensures kept[k].timestamp >= Cutoff(now)
    {
      assert kept[k] in kept;
    }
    NoneOld(kept, Cutoff(now));
    RetainNothing(kept);
  }

  /** Every old aircraft is analysed once: the sweep's turns for it are
      exactly the turns of its time-sorted reports, in their order. */
  lemma SweepReportsEachOldAircraft(rows: seq<Report>, now: int, unwrap: seq<real> -> seq<real>,
                                    intersect: (Ray, Ray) -> Option<Point>, h: string)
    requires LengthPreserving(unwrap)
    requires IsOld(rows, Cutoff(now), h)
    ensures TurnsOf(ProcessAircraftTurns(rows, now, unwrap, intersect).turns, h)
         == AircraftTurns(rows, h, unwrap, intersect)
  {
    TurnsForHexesPerAircraft(rows, OldHexes(rows, Cutoff(now)), unwrap, intersect, h);
  }
}
