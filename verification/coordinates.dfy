/** What the two coordinate-cleaning tools share: converting the quoted
    `lat lon` pair of a line, and folding the per-line outcomes of a file
    into the list of records, or the exception that aborts the whole file. */
module Coordinates {
  import opened Wrappers
  import opened Text
  import opened Dms

  // ---------------------------------------------------------------------
  // The coordinate pair

  datatype PairOutcome =
    | NoPair                     // not two DMS texts, or one does not match
    | Pair(lat: real, lon: real)
    | PairError                  // float() raised while converting one of them

  /** `coord_string.split(' ')`, then both halves converted; both
      conversions run before either result is examined, so an error in
      either one escapes. */
  function ConvertPair(coordString: string): (r: PairOutcome)
    ensures r.Pair? ==> Occurrences(coordString, ' ') == 1
    ensures r.Pair? ==> exists lat, lon ::
      (coordString == lat + " " + lon && DmsToDecimal(lat) == Value(r.lat) && DmsToDecimal(lon) == Value(r.lon))
    ensures var coords := Split(coordString, ' ');
      r.Pair? <==> |coords| == 2 && DmsToDecimal(coords[0]).Value? && DmsToDecimal(coords[1]).Value?
    ensures var coords := Split(coordString, ' ');
      r.PairError? <==> |coords| == 2 && (DmsToDecimal(coords[0]).ValueError? || DmsToDecimal(coords[1]).ValueError?)
  {
    var coords := Split(coordString, ' ');
    if |coords| != 2 then NoPair
    else
      assert Join(coords[1..], ' ') == coords[1];
      var lat := DmsToDecimal(coords[0]);
      var lon := DmsToDecimal(coords[1]);
      if lat.ValueError? || lon.ValueError? then PairError
      else if lat.Value? && lon.Value? then Pair(lat.v, lon.v)
      else NoPair
  }

  /** The characters a DMS rendering can contain. */
  predicate DmsChar(c: char)
  {
    IsDigit(c) || c == '.' || c == '°' || c == '\'' || c == '"' || IsDirection(c)
  }

  /** A rendering starts with a digit, ends with the hemisphere letter and
      holds nothing but digits, dots, the three marks and the letter. */
  lemma DmsStringChars(degrees: nat, dw: nat, minutes: nat, mw: nat, whole: nat, sw: nat, frac: nat, k: nat,
                        direction: char)
    requires IsDirection(direction)
    ensures var s := DmsString(degrees, dw, minutes, mw, whole, sw, frac, k, direction);
      && |s| > 0 && IsDigit(s[0]) && IsDirection(s[|s| - 1])
      && (forall i :: 0 <= i < |s| ==> DmsChar(s[i]))
  {
    var deg, min, sec := Numeral(degrees, dw), Numeral(minutes, mw), Fixed(whole, sw, frac, k);
    var s := DmsString(degrees, dw, minutes, mw, whole, sw, frac, k, direction);
    assert s == deg + "°" + min + "'" + sec + "\"\"" + [direction];
    assert DmsChars(deg) && DmsChars(min) && DmsChars(sec);
    DmsCharsAppend(deg, "°");
    DmsCharsAppend(deg + "°", min);
    DmsCharsAppend(deg + "°" + min, "'");
    DmsCharsAppend(deg + "°" + min + "'", sec);
    DmsCharsAppend(deg + "°" + min + "'" + sec, "\"\"");
    DmsCharsAppend(deg + "°" + min + "'" + sec + "\"\"", [direction]);
    assert s[0] == deg[0];
  }

  /** Every character of `s` is one a DMS rendering can contain. */
  predicate DmsChars(s: string)
  {
    forall i :: 0 <= i < |s| ==> DmsChar(s[i])
  }

  lemma DmsCharsAppend(a: string, b: string)
    requires DmsChars(a) && DmsChars(b)
    ensures DmsChars(a + b)
  {
    forall i | 0 <= i < |a + b|
      ensures DmsChar((a + b)[i])
    {
      if i < |a| {
        assert (a + b)[i] == a[i];
      } else {
        assert (a + b)[i] == b[i - |a|];
      }
    }
  }

  lemma NoCharOf(s: string, c: char)
    requires forall i :: 0 <= i < |s| ==> DmsChar(s[i])
    requires !DmsChar(c)
    ensures c !in s
  {
  }

  lemma SplitPair(a: string, b: string)
    requires ' ' !in a && ' ' !in b
    ensures Split(a + " " + b, ' ') == [a, b]
  {
    assert Join([a, b], ' ') == a + " " + b;
    SplitJoin([a, b], ' ');
  }

  /** Two space-free texts that convert, joined by one space, convert to
      the pair of their values. */
  lemma PairRoundTrip(lat: string, lon: string, x: real, y: real)
    requires ' ' !in lat && ' ' !in lon
    requires DmsToDecimal(lat) == Value(x) && DmsToDecimal(lon) == Value(y)
    ensures ConvertPair(lat + " " + lon) == Pair(x, y)
  {
    SplitPair(lat, lon);
  }

  /** One text that raises makes the whole pair raise, whatever the other
      text is. */
  lemma PairErrorEither(lat: string, lon: string)
    requires ' ' !in lat && ' ' !in lon
    requires DmsToDecimal(lat) == ValueError || DmsToDecimal(lon) == ValueError
    ensures ConvertPair(lat + " " + lon) == PairError
  {
    SplitPair(lat, lon);
  }

  /** `text` is a coordinate as the data files write it: it converts to
      `value`, starts with a digit, ends with the hemisphere letter, and
      holds neither of the two separators of a line. */
  ghost predicate Coordinate(text: string, value: real)
  {
    Framed(text) && DmsToDecimal(text) == Value(value)
  }

  /** The shape of a coordinate text, whether or not it converts. */
  ghost predicate Framed(text: string)
  {
    && |text| > 0 && IsDigit(text[0]) && IsDirection(text[|text| - 1])
    && ' ' !in text && ';' !in text
  }

  /** Every DMS rendering is such a coordinate, with its own value. */
  lemma RenderingIsCoordinate(text: string, degrees: nat, dw: nat, minutes: nat, mw: nat, whole: nat, sw: nat,
                              frac: nat, k: nat, direction: char, value: real)
    requires frac < Pow10(k) && IsDirection(direction)
    requires text == DmsString(degrees, dw, minutes, mw, whole, sw, frac, k, direction)
    requires value == Signed(direction, Magnitude(degrees, minutes, whole as real + Shift(frac as real, k)))
    ensures Coordinate(text, value)
  {
    var seconds := whole as real + Shift(frac as real, k);
    assert value == Signed(direction, Magnitude(degrees, minutes, seconds));
    assert Framed(text) by {
      DmsStringChars(degrees, dw, minutes, mw, whole, sw, frac, k, direction);
      NoCharOf(text, ' ');
      NoCharOf(text, ';');
    }
    DmsStringConverts(degrees, dw, minutes, mw, whole, sw, frac, k, direction, seconds);
  }

  // ---------------------------------------------------------------------
  // The quoted pair field

  /** `"text"`. */
  function Quoted(text: string): string
  {
    "\"" + text + "\""
  }

  lemma QuotedEnds(text: string)
    ensures |Quoted(text)| == |text| + 2
    ensures Quoted(text)[|Quoted(text)| - 1] == '"'
    ensures ';' !in text ==> ';' !in Quoted(text)
  {
  }

  /** The quotes around a coordinate pair come off, and only they. */
  lemma UnquotePair(lat: string, lon: string)
    requires Framed(lat) && Framed(lon)
    ensures Strip(Quoted(lat + " " + lon), IsQuote) == lat + " " + lon
    ensures ';' !in Quoted(lat + " " + lon)
  {
    var m := lat + " " + lon;
    assert m[0] == lat[0] && m[|m| - 1] == lon[|lon| - 1];
    assert Padded(Quoted(m), IsQuote, "\"", m, "\"");
    StripUnique(Quoted(m), IsQuote, "\"", m, "\"");
  }

  /** The quoted pair of two coordinates converts to their values. */
  lemma QuotedPairConverts(lat: string, lon: string, x: real, y: real)
    requires Coordinate(lat, x) && Coordinate(lon, y)
    ensures ConvertPair(Strip(Quoted(lat + " " + lon), IsQuote)) == Pair(x, y)
    ensures ';' !in Quoted(lat + " " + lon)
    ensures Quoted(lat + " " + lon)[|Quoted(lat + " " + lon)| - 1] == '"'
  {
    UnquotePair(lat, lon);
    QuotedEnds(lat + " " + lon);
    PairRoundTrip(lat, lon, x, y);
  }

  // ---------------------------------------------------------------------
  // Lines of a file

  /** The pair held by the second `;`-field of a stripped line once its
      quotes are stripped (`parts[1].strip('"')`); a line without `;` has
      no such field. */
  function LinePair(line: string): PairOutcome
  {
    if ';' !in line then NoPair
    else
      SplitFindsSeparator(line, ';');
      ConvertPair(Strip(Split(line, ';')[1], IsQuote))
  }

  /** What one line contributes. */
  datatype LineOutcome<T> =
    | Skip            // blank, without ';', or not convertible
    | Emit(record: T)
    | Raise           // a ValueError escapes the loop

  /** The records of a file in line order, or the first line whose
      conversion raised: the exception leaves `parse_coordinates_csv`, so no
      record at all is returned. */
  datatype ParseResult<T> = Parsed(records: seq<T>) | ConversionError(line: nat)

  /** What one line's outcome makes of the outcome of the lines after it. */
  function Then<T>(o: LineOutcome<T>, rest: ParseResult<T>): ParseResult<T>
  {
    match o
    case Raise => ConversionError(0)
    case Skip => (match rest case Parsed(rs) => Parsed(rs) case ConversionError(n) => ConversionError(n + 1))
    case Emit(rec) => (match rest case Parsed(rs) => Parsed([rec] + rs) case ConversionError(n) => ConversionError(n + 1))
  }

  function ParseLines<T>(lines: seq<string>, parse: string -> LineOutcome<T>): (r: ParseResult<T>)
    ensures r.Parsed? <==> forall k :: 0 <= k < |lines| ==> !parse(lines[k]).Raise?
    ensures r.ConversionError? ==>
      && r.line < |lines| && parse(lines[r.line]).Raise?
      && forall k :: 0 <= k < r.line ==> !parse(lines[k]).Raise?
    ensures r.Parsed? ==> |r.records| <= |lines|
  {
    if |lines| == 0 then Parsed([])
    else
      assert forall k :: 1 <= k < |lines| ==> lines[1..][k - 1] == lines[k];
      Then(parse(lines[0]), ParseLines(lines[1..], parse))
  }

  /** Every record of a file that converts comes from one of its lines. */
  lemma {:induction false} ParseLinesFromLines<T>(lines: seq<string>, parse: string -> LineOutcome<T>)
    ensures var r := ParseLines(lines, parse);
      r.Parsed? ==> forall i :: 0 <= i < |r.records| ==>
        exists k :: 0 <= k < |lines| && parse(lines[k]) == Emit(r.records[i])
    decreases |lines|
  {
    var r := ParseLines(lines, parse);
    if |lines| > 0 && r.Parsed? {
      var tail := lines[1..];
      ParseLinesFromLines(tail, parse);
      var rs := ParseLines(tail, parse).records;
      var emits := parse(lines[0]).Emit?;
      assert r.records == if emits then [parse(lines[0]).record] + rs else rs;
      forall i | 0 <= i < |r.records|
        ensures exists k :: 0 <= k < |lines| && parse(lines[k]) == Emit(r.records[i])
      {
        if emits && i == 0 {
          assert parse(lines[0]) == Emit(r.records[0]);
        } else {
          var j := if emits then i - 1 else i;
          assert r.records[i] == rs[j];
          var k :| 0 <= k < |tail| && parse(tail[k]) == Emit(rs[j]);
          assert lines[k + 1] == tail[k];
        }
      }
    }
  }

  /** A file whose every line gives a record parses to those records, in
      the order of the lines. */
  lemma {:induction false} ParseLinesAllEmit<T>(lines: seq<string>, parse: string -> LineOutcome<T>, records: seq<T>)
    requires |lines| == |records|
    requires forall k :: 0 <= k < |lines| ==> parse(lines[k]) == Emit(records[k])
    ensures ParseLines(lines, parse) == Parsed(records)
    decreases |lines|
  {
    if |lines| > 0 {
      assert parse(lines[0]) == Emit(records[0]);
      assert forall k :: 0 <= k < |lines[1..]| ==> lines[1..][k] == lines[k + 1];
      ParseLinesAllEmit(lines[1..], parse, records[1..]);
      assert records == [records[0]] + records[1..];
    }
  }

  /** The outcome of a file once its line `k`, which gave nothing, is
      removed: the records stay, a failing line behind it moves up by one. */
  function WithoutLine<T>(r: ParseResult<T>, k: nat): ParseResult<T>
  {
    match r
    case Parsed(rs) => Parsed(rs)
    case ConversionError(n) => ConversionError(if n <= k then n else n - 1)
  }

  /** Lines that give nothing can be dropped from a file without changing
      its outcome. */
  lemma {:induction false} ParseLinesSkip<T>(lines: seq<string>, parse: string -> LineOutcome<T>, k: nat)
    requires k < |lines| && parse(lines[k]) == Skip
    ensures ParseLines(lines[..k] + lines[k + 1..], parse) == WithoutLine(ParseLines(lines, parse), k)
    decreases k
  {
    if k == 0 {
      ParseLinesSkipFirst(lines, parse);
    } else {
      var tail := lines[1..];
      var r := ParseLines(tail, parse);
      var dropped := lines[..k] + lines[k + 1..];
      assert ParseLines(tail[..k - 1] + tail[k..], parse) == WithoutLine(r, k - 1) by {
        ParseLinesSkip(tail, parse, k - 1);
      }
      assert dropped[0] == lines[0] && dropped[1..] == tail[..k - 1] + tail[k..];
      ThenSkip(parse(lines[0]), r, k);
    }
  }

  lemma ParseLinesSkipFirst<T>(lines: seq<string>, parse: string -> LineOutcome<T>)
    requires |lines| > 0 && parse(lines[0]) == Skip
    ensures ParseLines(lines[..0] + lines[1..], parse) == WithoutLine(ParseLines(lines, parse), 0)
  {
    var r := ParseLines(lines[1..], parse);
    assert lines[..0] + lines[1..] == lines[1..];
    assert ParseLines(lines, parse) == Then(Skip, r);
    SkipThenDrop(r);
  }

  /** A skipped first line, dropped again, leaves the rest's result. */
  lemma SkipThenDrop<T>(r: ParseResult<T>)
    ensures WithoutLine(Then(Skip, r), 0) == r
  {
  }

  /** One more line in front of a file from which a later line is dropped. */
  lemma ThenSkip<T>(o: LineOutcome<T>, r: ParseResult<T>, k: nat)
    requires k > 0
    ensures Then(o, WithoutLine(r, k - 1)) == WithoutLine(Then(o, r), k)
  {
  }

  /** Parsing a file is parsing its parts one after the other: records keep
      the order of their lines, and an error in the second part is reported
      at its line in the whole file. */
  lemma {:induction false} ParseLinesAppend<T>(a: seq<string>, b: seq<string>, parse: string -> LineOutcome<T>)
    requires ParseLines(a, parse).Parsed?
    ensures ParseLines(a + b, parse) ==
      match ParseLines(b, parse)
      case Parsed(rs) => Parsed(ParseLines(a, parse).records + rs)
      case ConversionError(k) => ConversionError(|a| + k)
    decreases |a|
  {
    if |a| == 0 {
      assert a + b == b;
    } else {
      var ab := a + b;
      assert ab[0] == a[0] && ab[1..] == a[1..] + b;
      ParseLinesAppend(a[1..], b, parse);
      ThenAppend(parse(a[0]), ParseLines(a[1..], parse).records, ParseLines(b, parse), |a| - 1);
    }
  }

  /** One more line in front of a file that converts, followed by more lines. */
  lemma ThenAppend<T>(o: LineOutcome<T>, ra: seq<T>, rb: ParseResult<T>, n: nat)
    requires !o.Raise?
    ensures Then(o, match rb case Parsed(rs) => Parsed(ra + rs) case ConversionError(k) => ConversionError(n + k))
         == match rb
            case Parsed(rs) => Parsed(Then(o, Parsed(ra)).records + rs)
            case ConversionError(k) => ConversionError(n + 1 + k)
  {
    if o.Emit? && rb.Parsed? {
      assert [o.record] + (ra + rb.records) == [o.record] + ra + rb.records;
    }
  }

}
