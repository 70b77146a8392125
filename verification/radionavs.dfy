/** The radio-navigation aid cleaner: each line of a `;`-separated file
    holds a code, a quoted `lat lon` pair in degrees, minutes and seconds,
    and optionally a quoted range note. A line becomes a record with the
    code and the two decimal coordinates; lines that do not fit are
    skipped, and a coordinate whose seconds `float()` rejects aborts the
    whole file. */
module Radionavs {
  import opened Wrappers
  import opened Text
  import opened Dms
  import opened Coordinates

  /** One output record. `info` models the presence of the `'info'` key:
      only two-column lines carry it, always empty; the note of a
      three-column line is read but never stored. */
  datatype Radionav = Radionav(code: string, latitude: real, longitude: real, info: Option<string>)

  /** The body of the loop of `parse_coordinates_csv` for one line. */
  function RadionavLine(raw: string): (r: LineOutcome<Radionav>)
    ensures ';' !in raw ==> r == Skip
    ensures r.Emit? ==> ';' !in r.record.code && Strip(r.record.code, IsSpace) == r.record.code
    ensures r.Emit? ==> (r.record.info.Some? <==> Occurrences(Strip(raw, IsSpace), ';') == 1)
    ensures r.Emit? && r.record.info.Some? ==> r.record.info.value == ""
    ensures r.Emit? <==> LinePair(Strip(raw, IsSpace)).Pair?
    ensures r.Emit? ==> LinePair(Strip(raw, IsSpace)) == Pair(r.record.latitude, r.record.longitude)
    ensures r.Raise? <==> LinePair(Strip(raw, IsSpace)).PairError?
    ensures r.Emit? ==> r.record.code == Strip(Split(Strip(raw, IsSpace), ';')[0], IsSpace)
  {
    var line := Strip(raw, IsSpace);
    if |line| == 0 || ';' !in line then Skip
    else
      SplitFindsSeparator(line, ';');
      StripKeepsOut(raw, IsSpace, ';');
      FieldsOutcome(Split(line, ';'))
  }

  /** What the fields of a line with at least one `;` give. */
  function FieldsOutcome(parts: seq<string>): (r: LineOutcome<Radionav>)
    requires |parts| >= 2
    ensures r.Emit? ==> r.record.code == Strip(parts[0], IsSpace)
    ensures r.Emit? ==> ';' !in parts[0] ==> ';' !in r.record.code
    ensures r.Emit? ==> Strip(r.record.code, IsSpace) == r.record.code
    ensures r.Emit? ==> (r.record.info.Some? <==> |parts| == 2)
    ensures r.Emit? <==> ConvertPair(Strip(parts[1], IsQuote)).Pair?
    ensures r.Emit? ==> ConvertPair(Strip(parts[1], IsQuote)) == Pair(r.record.latitude, r.record.longitude)
    ensures r.Raise? <==> ConvertPair(Strip(parts[1], IsQuote)).PairError?
  {
    StripIdempotent(parts[0], IsSpace);
    StripKeepsOut(parts[0], IsSpace, ';');
    var code := Strip(parts[0], IsSpace);
    var info := if |parts| >= 3 then None else Some("");
    match ConvertPair(Strip(parts[1], IsQuote))
    case Pair(lat, lon) => Emit(Radionav(code, lat, lon, info))
    case PairError => Raise
    case NoPair => Skip
  }

  /** `parse_coordinates_csv`: the records of the file, or the line whose
      conversion raised. */
  function ParseRadionavs(lines: seq<string>): (r: ParseResult<Radionav>)
    ensures r.Parsed? ==> forall i :: 0 <= i < |r.records| ==>
      exists k :: 0 <= k < |lines| && RadionavLine(lines[k]) == Emit(r.records[i])
    ensures r.ConversionError? ==> r.line < |lines| && RadionavLine(lines[r.line]) == Raise
  {
    ParseLinesFromLines(lines, RadionavLine);
    ParseLines(lines, RadionavLine)
  }

  // ---------------------------------------------------------------------
  // Lines as the data files write them

  /** `code;"lat lon";"info"`, the three-column layout. */
  function NoteLine(code: string, lat: string, lon: string, info: string): string
  {
    code + ";" + Quoted(lat + " " + lon) + ";" + Quoted(info)
  }

  /** `code;"lat lon"`, the two-column layout. */
  function ShortLine(code: string, lat: string, lon: string): string
  {
    code + ";" + Quoted(lat + " " + lon)
  }

  /** A code as the files write it: no separator, no surrounding blanks. */
  ghost predicate CleanCode(code: string)
  {
    ';' !in code && Strip(code, IsSpace) == code
  }

  /** A line that starts with a clean code and ends with a quote is not
      changed by `line.strip()`. */
  lemma CleanLine(code: string, tail: string)
    requires CleanCode(code) && |tail| > 0 && tail[0] == ';' && tail[|tail| - 1] == '"'
    ensures Strip(code + tail, IsSpace) == code + tail
  {
    var s := code + tail;
    if |code| > 0 {
      assert s[0] == code[0];
    }
    assert s[|s| - 1] == tail[|tail| - 1];
    StripClean(s, IsSpace);
  }

  /** The three fields of a three-column line. */
  lemma NoteLineFields(code: string, pair: string, info: string)
    requires CleanCode(code) && ';' !in pair && ';' !in info
    ensures Strip(code + ";" + pair + ";" + Quoted(info), IsSpace) == code + ";" + pair + ";" + Quoted(info)
    ensures Split(code + ";" + pair + ";" + Quoted(info), ';') == [code, pair, Quoted(info)]
  {
    var q := Quoted(info);
    var tail := ";" + pair + ";" + q;
    assert code + ";" + pair + ";" + q == code + tail;
    assert tail[0] == ';' && tail[|tail| - 1] == '"' && ';' !in q by {
      QuotedEnds(info);
      assert tail[|tail| - 1] == q[|q| - 1];
    }
    CleanLine(code, tail);
    SplitThree(code, pair, q, ';');
  }

  /** The two fields of a two-column line. */
  lemma ShortLineFields(code: string, pair: string)
    requires CleanCode(code) && ';' !in pair && |pair| > 0 && pair[|pair| - 1] == '"'
    ensures Strip(code + ";" + pair, IsSpace) == code + ";" + pair
    ensures Split(code + ";" + pair, ';') == [code, pair]
  {
    var tail := ";" + pair;
    assert code + ";" + pair == code + tail;
    assert tail[0] == ';' && tail[|tail| - 1] == '"' by {
      assert tail[|tail| - 1] == pair[|pair| - 1];
    }
    CleanLine(code, tail);
    SplitTwo(code, pair, ';');
  }

  /** A line that `line.strip()` leaves alone and that holds a `;` gives
      what its fields give. */
  lemma LineOfFields(line: string, parts: seq<string>)
    requires Strip(line, IsSpace) == line && Split(line, ';') == parts && |parts| >= 2
    ensures RadionavLine(line) == FieldsOutcome(parts)
  {
    SplitFindsSeparator(line, ';');
  }

  /** Fields whose second one holds a convertible pair give the record. */
  lemma FieldsEmit(parts: seq<string>, x: real, y: real)
    requires |parts| >= 2 && ConvertPair(Strip(parts[1], IsQuote)) == Pair(x, y)
    ensures FieldsOutcome(parts)
         == Emit(Radionav(Strip(parts[0], IsSpace), x, y, if |parts| == 2 then Some("") else None))
  {
  }

  /** A three-column line written from a code, two coordinates and a note
      reads back as the record of the code and the coordinates' values,
      without an `'info'` key. */
  lemma NoteLineRoundTrip(code: string, lat: string, lon: string, info: string, x: real, y: real)
    requires CleanCode(code) && ';' !in info
    requires Coordinate(lat, x) && Coordinate(lon, y)
    ensures RadionavLine(NoteLine(code, lat, lon, info)) == Emit(Radionav(code, x, y, None))
  {
    var pair := Quoted(lat + " " + lon);
    var line := NoteLine(code, lat, lon, info);
    var parts := [code, pair, Quoted(info)];
    assert line == code + ";" + pair + ";" + Quoted(info);
    QuotedPairConverts(lat, lon, x, y);
    NoteLineFields(code, pair, info);
    LineOfFields(line, parts);
    FieldsEmit(parts, x, y);
  }

  /** A two-column line reads back as the record with an empty `'info'`. */
  lemma ShortLineRoundTrip(code: string, lat: string, lon: string, x: real, y: real)
    requires CleanCode(code)
    requires Coordinate(lat, x) && Coordinate(lon, y)
    ensures RadionavLine(ShortLine(code, lat, lon)) == Emit(Radionav(code, x, y, Some("")))
  {
    var pair := Quoted(lat + " " + lon);
    var line := ShortLine(code, lat, lon);
    var parts := [code, pair];
    assert line == code + ";" + pair;
    QuotedPairConverts(lat, lon, x, y);
    ShortLineFields(code, pair);
    LineOfFields(line, parts);
    FieldsEmit(parts, x, y);
  }

  /** A coordinate that `float()` rejects makes the line raise, so the
      whole file fails. */
  lemma BadCoordinateRaises(code: string, lat: string, lon: string, info: string)
    requires CleanCode(code) && ';' !in info
    requires Framed(lat) && Framed(lon)
    requires DmsToDecimal(lat) == ValueError || DmsToDecimal(lon) == ValueError
    ensures RadionavLine(NoteLine(code, lat, lon, info)) == Raise
  {
    var pair := Quoted(lat + " " + lon);
    var line := NoteLine(code, lat, lon, info);
    var parts := [code, pair, Quoted(info)];
    assert line == code + ";" + pair + ";" + Quoted(info);
    assert ConvertPair(Strip(pair, IsQuote)) == PairError && ';' !in pair by {
      UnquotePair(lat, lon);
      PairErrorEither(lat, lon);
    }
    NoteLineFields(code, pair, info);
    LineOfFields(line, parts);
    FieldsRaise(parts);
  }

  /** Fields whose second one holds a pair that raises make the line raise. */
  lemma FieldsRaise(parts: seq<string>)
    requires |parts| >= 2 && ConvertPair(Strip(parts[1], IsQuote)) == PairError
    ensures FieldsOutcome(parts) == Raise
  {
  }
}
