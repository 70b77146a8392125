/** The waypoint cleaner: like the radio-navigation aid cleaner, but every
    line with a `;` is read as a code and a quoted `lat lon` pair, the code
    is taken as written (only the line's ends are stripped), and any
    further field is ignored. */
module Waypoints {
  import opened Text
  import opened Dms
  import opened Coordinates

  datatype Waypoint = Waypoint(code: string, latitude: real, longitude: real)

  /** The body of the loop of `parse_coordinates_csv` for one line. */
  function WaypointLine(raw: string): (r: LineOutcome<Waypoint>)
    ensures ';' !in raw ==> r == Skip
    ensures r.Emit? ==> ';' !in r.record.code && r.record.code + ";" <= Strip(raw, IsSpace)
    ensures r.Emit? <==> LinePair(Strip(raw, IsSpace)).Pair?
    ensures r.Emit? ==> LinePair(Strip(raw, IsSpace)) == Pair(r.record.latitude, r.record.longitude)
    ensures r.Raise? <==> LinePair(Strip(raw, IsSpace)).PairError?
  {
    var line := Strip(raw, IsSpace);
    if |line| == 0 || ';' !in line then Skip
    else
      SplitFindsSeparator(line, ';');
      StripKeepsOut(raw, IsSpace, ';');
      var parts := Split(line, ';');
      var code := parts[0];
      assert line == code + ";" + Join(parts[1..], ';');
      match ConvertPair(Strip(parts[1], IsQuote))
      case Pair(lat, lon) => Emit(Waypoint(code, lat, lon))
      case PairError => Raise
      case NoPair => Skip
  }

  /** `parse_coordinates_csv`: the records of the file, or the line whose
      conversion raised. */
  function ParseWaypoints(lines: seq<string>): (r: ParseResult<Waypoint>)
    ensures r.Parsed? ==> forall i :: 0 <= i < |r.records| ==>
      exists k :: 0 <= k < |lines| && WaypointLine(lines[k]) == Emit(r.records[i])
    ensures r.ConversionError? ==> r.line < |lines| && WaypointLine(lines[r.line]) == Raise
  {
    ParseLinesFromLines(lines, WaypointLine);
    ParseLines(lines, WaypointLine)
  }

  /** A code as the waypoint files write it: no separator, and no blank in
      front (blanks behind it stay part of the code). */
  ghost predicate WaypointCode(code: string)
  {
    ';' !in code && (|code| > 0 ==> !IsSpace(code[0]))
  }

  /** The fields of `code;pair;rest`, where `rest` does not end in a blank. */
  lemma WaypointFields(code: string, pair: string, rest: string)
    requires WaypointCode(code) && ';' !in pair && |pair| > 0 && pair[|pair| - 1] == '"'
    requires |rest| > 0 ==> !IsSpace(rest[|rest| - 1])
    ensures var line := code + ";" + pair + (if |rest| == 0 then "" else ";" + rest);
      && Strip(line, IsSpace) == line
      && Split(line, ';') == [code, pair] + (if |rest| == 0 then [] else Split(rest, ';'))
  {
    var line := code + ";" + pair + (if |rest| == 0 then "" else ";" + rest);
    if |rest| == 0 {
      assert line == code + ";" + pair;
      SplitTwo(code, pair, ';');
      assert line[|line| - 1] == pair[|pair| - 1];
    } else {
      assert line == code + ";" + pair + ";" + rest;
      SplitTwoThen(code, pair, rest, ';');
      assert line[|line| - 1] == rest[|rest| - 1];
    }
    if |code| > 0 {
      assert line[0] == code[0];
    }
    StripClean(line, IsSpace);
  }

  /** A line that `line.strip()` leaves alone and that holds a `;` gives
      what its first two fields give. */
  lemma WaypointOfFields(line: string, parts: seq<string>, x: real, y: real)
    requires Strip(line, IsSpace) == line && Split(line, ';') == parts && |parts| >= 2
    requires ConvertPair(Strip(parts[1], IsQuote)) == Pair(x, y)
    ensures WaypointLine(line) == Emit(Waypoint(parts[0], x, y))
  {
    SplitFindsSeparator(line, ';');
  }

  /** A line written from a code and two coordinates, followed or not by
      further fields, reads back as the record of the code exactly as
      written and the coordinates' values. */
  lemma WaypointRoundTrip(code: string, lat: string, lon: string, rest: string, x: real, y: real)
    requires WaypointCode(code) && (|rest| > 0 ==> !IsSpace(rest[|rest| - 1]))
    requires Coordinate(lat, x) && Coordinate(lon, y)
    ensures WaypointLine(code + ";" + Quoted(lat + " " + lon) + (if |rest| == 0 then "" else ";" + rest))
         == Emit(Waypoint(code, x, y))
  {
    var pair := Quoted(lat + " " + lon);
    var line := code + ";" + pair + (if |rest| == 0 then "" else ";" + rest);
    assert ConvertPair(Strip(pair, IsQuote)) == Pair(x, y) && ';' !in pair && pair[|pair| - 1] == '"' by {
      QuotedPairConverts(lat, lon, x, y);
    }
    var parts := Split(line, ';');
    assert Strip(line, IsSpace) == line && |parts| >= 2 && parts[0] == code && parts[1] == pair by {
      WaypointFields(code, pair, rest);
    }
    WaypointOfFields(line, parts, x, y);
  }
}
