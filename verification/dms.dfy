/** `dms_to_decimal`: a coordinate written as degrees, minutes, seconds and
    a hemisphere letter, `45°39'21.0""N`, becomes signed decimal degrees. */
module Dms {
  import opened Wrappers
  import opened Text

  predicate IsDecimalChar(c: char)
  {
    IsDigit(c) || c == '.'
  }

  predicate DecimalText(s: string)
  {
    forall k :: 0 <= k < |s| ==> IsDecimalChar(s[k])
  }

  predicate IsDirection(c: char)
  {
    c == 'N' || c == 'S' || c == 'E' || c == 'W'
  }

  /** `x / 10^k`, one decimal place at a time. */
  function Shift(x: real, k: nat): (r: real)
    ensures x >= 0.0 ==> r >= 0.0
  {
    if k == 0 then x else Shift(x, k - 1) / 10.0
  }

  /** South and west are negative. */
  function Signed(direction: char, x: real): real
  {
    if direction == 'S' || direction == 'W' then -x else x
  }

  // ---------------------------------------------------------------------
  // The pattern (\d+)°(\d+)'([\d.]+)""([NSEW]), anchored at the start only

  /** End of the longest run of characters in `p` starting at `i`. */
  function RunEnd(s: string, i: nat, p: char -> bool): (j: nat)
    requires i <= |s|
    ensures i <= j <= |s|
    ensures forall k :: i <= k < j ==> p(s[k])
    ensures j < |s| ==> !p(s[j])
    decreases |s| - i
  {
    if i < |s| && p(s[i]) then RunEnd(s, i + 1, p) else i
  }

  /** The four captured groups. */
  datatype DmsText = DmsText(degrees: string, minutes: string, seconds: string, direction: char)

  ghost predicate WellFormed(f: DmsText)
  {
    && |f.degrees| > 0 && AllDigits(f.degrees)
    && |f.minutes| > 0 && AllDigits(f.minutes)
    && |f.seconds| > 0 && DecimalText(f.seconds)
    && IsDirection(f.direction)
  }

  /** The text the pattern matches for these groups. */
  function Render(f: DmsText): string
  {
    f.degrees + "°" + f.minutes + "'" + f.seconds + "\"\"" + [f.direction]
  }

  /** `re.match` of the pattern. Each group is a maximal run, because the
      character after it can never belong to it, so backtracking never
      finds another match. */
  function Match(s: string): Option<DmsText>
  {
    var d := RunEnd(s, 0, IsDigit);
    if d == 0 || d >= |s| || s[d] != '°' then None
    else
      var m := RunEnd(s, d + 1, IsDigit);
      if m == d + 1 || m >= |s| || s[m] != '\'' then None
      else
        var e := RunEnd(s, m + 1, IsDecimalChar);
        if e == m + 1 || e + 3 > |s| || s[e] != '"' || s[e + 1] != '"' || !IsDirection(s[e + 2]) then None
        else Some(DmsText(s[..d], s[d + 1..m], s[m + 1..e], s[e + 2]))
  }

  /** A match yields well-formed groups whose rendering starts the text. */
  lemma MatchSound(s: string)
    ensures Match(s).Some? ==> WellFormed(Match(s).value) && Render(Match(s).value) <= s
  {
    if Match(s).Some? {
      var d := RunEnd(s, 0, IsDigit);
      var m := RunEnd(s, d + 1, IsDigit);
      var e := RunEnd(s, m + 1, IsDecimalChar);
      MatchedGroups(s, d, m, e);
    }
  }

  /** Runs of the right characters between the right separators are
      well-formed groups whose rendering starts the text. */
  lemma MatchedGroups(s: string, d: nat, m: nat, e: nat)
    requires 0 < d && d + 1 < m && m + 1 < e && e + 3 <= |s|
    requires s[d] == '°' && s[m] == '\'' && s[e] == '"' && s[e + 1] == '"' && IsDirection(s[e + 2])
    requires forall k :: 0 <= k < d ==> IsDigit(s[k])
    requires forall k :: d + 1 <= k < m ==> IsDigit(s[k])
    requires forall k :: m + 1 <= k < e ==> IsDecimalChar(s[k])
    ensures var f := DmsText(s[..d], s[d + 1..m], s[m + 1..e], s[e + 2]);
      WellFormed(f) && Render(f) <= s
  {
    var f := DmsText(s[..d], s[d + 1..m], s[m + 1..e], s[e + 2]);
    assert Render(f) == s[..e + 3];
  }

  lemma RunEndAt(s: string, i: nat, j: nat, p: char -> bool)
    requires i <= j <= |s|
    requires forall k :: i <= k < j ==> p(s[k])
    requires j < |s| ==> !p(s[j])
    ensures RunEnd(s, i, p) == j
  {
  }

  /** Where each group and delimiter sits in a rendering. */
  lemma RenderLayout(f: DmsText)
    ensures var d := |f.degrees|;
      var m := d + 1 + |f.minutes|;
      var e := m + 1 + |f.seconds|;
      var r := Render(f);
      && |r| == e + 3
      && r[..d] == f.degrees && r[d] == '°'
      && r[d + 1..m] == f.minutes && r[m] == '\''
      && r[m + 1..e] == f.seconds && r[e] == '"' && r[e + 1] == '"' && r[e + 2] == f.direction
  {
  }

  lemma RunOfGroup(s: string, i: nat, g: string, p: char -> bool)
    requires i + |g| < |s| && s[i..i + |g|] == g
    requires forall k :: 0 <= k < |g| ==> p(g[k])
    requires !p(s[i + |g|])
    ensures RunEnd(s, i, p) == i + |g|
  {
    forall k | i <= k < i + |g| ensures p(s[k]) {
      assert s[k] == g[k - i];
    }
    RunEndAt(s, i, i + |g|, p);
  }

  lemma DegreesAt(s: string, f: DmsText)
    requires WellFormed(f) && Render(f) <= s
    ensures var d := |f.degrees|;
      RunEnd(s, 0, IsDigit) == d && s[d] == '°' && s[..d] == f.degrees
  {
    var r := Render(f);
    RenderLayout(f);
    assert s[..|r|] == r;
    RunOfGroup(s, 0, f.degrees, IsDigit);
  }

  lemma MinutesAt(s: string, f: DmsText)
    requires WellFormed(f) && Render(f) <= s
    ensures var d := |f.degrees|;
      var m := d + 1 + |f.minutes|;
      RunEnd(s, d + 1, IsDigit) == m && s[m] == '\'' && s[d + 1..m] == f.minutes
  {
    var d := |f.degrees|;
    var r := Render(f);
    RenderLayout(f);
    assert s[..|r|] == r;
    RunOfGroup(s, d + 1, f.minutes, IsDigit);
  }

  lemma SecondsAt(s: string, f: DmsText)
    requires WellFormed(f) && Render(f) <= s
    ensures var m := |f.degrees| + 1 + |f.minutes|;
      var e := m + 1 + |f.seconds|;
      && e + 3 <= |s|
      && RunEnd(s, m + 1, IsDecimalChar) == e && s[m + 1..e] == f.seconds
      && s[e] == '"' && s[e + 1] == '"' && s[e + 2] == f.direction
  {
    var m := |f.degrees| + 1 + |f.minutes|;
    var r := Render(f);
    RenderLayout(f);
    assert s[..|r|] == r;
    RunOfGroup(s, m + 1, f.seconds, IsDecimalChar);
  }

  /** The pattern matches a text that starts with a rendering of
      well-formed groups, and it captures those groups. */
  lemma MatchRendered(s: string, f: DmsText)
    requires WellFormed(f) && Render(f) <= s
    ensures Match(s) == Some(f)
  {
    var d := |f.degrees|;
    var m := d + 1 + |f.minutes|;
    var e := m + 1 + |f.seconds|;
    DegreesAt(s, f);
    MinutesAt(s, f);
    SecondsAt(s, f);
    MatchAt(s, d, m, e);
    assert DmsText(s[..d], s[d + 1..m], s[m + 1..e], s[e + 2]) == f;
  }

  /** Where the runs end decides the match. */
  lemma MatchAt(s: string, d: nat, m: nat, e: nat)
    requires 0 < d < |s| && RunEnd(s, 0, IsDigit) == d && s[d] == '°'
    requires d + 1 < m < |s| && RunEnd(s, d + 1, IsDigit) == m && s[m] == '\''
    requires m + 1 < e && e + 3 <= |s| && RunEnd(s, m + 1, IsDecimalChar) == e
    requires s[e] == '"' && s[e + 1] == '"' && IsDirection(s[e + 2])
    ensures Match(s) == Some(DmsText(s[..d], s[d + 1..m], s[m + 1..e], s[e + 2]))
  {
  }

  /** The pattern matches exactly the texts that start with a rendering of
      well-formed groups, and it captures those groups. */
  lemma MatchIff(s: string, f: DmsText)
    ensures Match(s) == Some(f) <==> WellFormed(f) && Render(f) <= s
  {
    MatchSound(s);
    if WellFormed(f) && Render(f) <= s {
      MatchRendered(s, f);
    }
  }

  // ---------------------------------------------------------------------
  // float() on the captured groups

  ghost predicate HasDigit(s: string)
  {
    exists k :: 0 <= k < |s| && IsDigit(s[k])
  }

  lemma DigitsOfPieces(a: string, b: string)
    requires '.' !in a && '.' !in b
    requires DecimalText(a + "." + b)
    ensures AllDigits(a) && AllDigits(b)
    ensures HasDigit(a + "." + b) <==> |a| + |b| > 0
  {
    var s := a + "." + b;
    forall k | 0 <= k < |a| ensures IsDigit(a[k]) {
      assert s[k] == a[k];
    }
    forall k | 0 <= k < |b| ensures IsDigit(b[k]) {
      assert s[|a| + 1 + k] == b[k];
    }
    if |a| > 0 {
      assert s[0] == a[0];
    } else if |b| > 0 {
      assert s[|a| + 1] == b[0];
    }
    if HasDigit(s) {
      var k :| 0 <= k < |s| && IsDigit(s[k]);
      assert k != |a|;
    }
  }

  /** Python's `float()` on a string of digits and dots: it fails when there
      is more than one dot or no digit at all. */
  function ParseDecimal(s: string): (r: Option<real>)
    requires DecimalText(s)
    ensures r.Some? <==> Occurrences(s, '.') <= 1 && HasDigit(s)
    ensures r.Some? ==> r.value >= 0.0
  {
    var parts := Split(s, '.');
    if |parts| == 1 then
      assert s == parts[0] && '.' !in parts[0];
      forall k | 0 <= k < |s| ensures IsDigit(s[k]) {
        assert s[k] in parts[0];
      }
      assert |s| > 0 ==> IsDigit(s[0]);
      if |s| == 0 then None else Some(NatValue(s) as real)
    else if |parts| == 2 then
      assert Join(parts[1..], '.') == parts[1];
      assert s == parts[0] + "." + parts[1];
      DigitsOfPieces(parts[0], parts[1]);
      if |parts[0]| + |parts[1]| == 0 then None
      else Some(NatValue(parts[0]) as real + Shift(NatValue(parts[1]) as real, |parts[1]|))
    else
      None
  }

  lemma DecimalJoin(a: string, b: string)
    requires AllDigits(a) && AllDigits(b)
    ensures DecimalText(a + "." + b)
  {
    var s := a + "." + b;
    forall i | 0 <= i < |s| ensures IsDecimalChar(s[i]) {
      if i < |a| {
        assert s[i] == a[i];
      } else if i > |a| {
        assert s[i] == b[i - |a| - 1];
      }
    }
  }

  /** `whole + frac / 10^k` written with at least `width` digits before
      the dot and `k` after it (no dot when `k` is 0). */
  function Fixed(whole: nat, width: nat, frac: nat, k: nat): (s: string)
    ensures DecimalText(s)
  {
    if k == 0 then Numeral(whole, width)
    else
      DecimalJoin(Numeral(whole, width), PadDigits(frac, k));
      Numeral(whole, width) + "." + PadDigits(frac, k)
  }

  lemma AllDigitsNoDot(s: string)
    requires AllDigits(s)
    ensures '.' !in s
  {
  }

  lemma ParseJoined(a: string, b: string)
    requires AllDigits(a) && AllDigits(b) && |a| + |b| > 0
    ensures DecimalText(a + "." + b)
    ensures ParseDecimal(a + "." + b).Some?
    ensures ParseDecimal(a + "." + b).value == NatValue(a) as real + Shift(NatValue(b) as real, |b|)
  {
    DecimalJoin(a, b);
    AllDigitsNoDot(a);
    AllDigitsNoDot(b);
    assert Join([a, b], '.') == a + "." + b;
    SplitJoin([a, b], '.');
    var parts := Split(a + "." + b, '.');
    assert parts == [a, b];
    assert |parts| == 2 && parts[0] == a && parts[1] == b;
    assert ParseDecimal(a + "." + b).value == NatValue(parts[0]) as real + Shift(NatValue(parts[1]) as real, |parts[1]|);
  }

  /** `float()` reads back the fixed-point rendering exactly. */
  lemma ParseFixed(whole: nat, width: nat, frac: nat, k: nat)
    requires frac < Pow10(k)
    ensures ParseDecimal(Fixed(whole, width, frac, k)).Some?
    ensures ParseDecimal(Fixed(whole, width, frac, k)).value == whole as real + Shift(frac as real, k)
  {
    var a := Numeral(whole, width);
    NumeralValue(whole, width);
    if k == 0 {
      AllDigitsNoDot(a);
      SplitWhole(a, '.');
    } else {
      var b := PadDigits(frac, k);
      ParseJoined(a, b);
      PadDigitsValue(frac, k);
    }
  }

  // ---------------------------------------------------------------------
  // dms_to_decimal

  datatype Conversion =
    | NoMatch          // the function returns None
    | Value(v: real)   // the signed decimal degrees
    | ValueError       // float() raises on the seconds group

  /** The exact value of the three groups, before the sign. */
  function Magnitude(degrees: nat, minutes: nat, seconds: real): real
  {
    degrees as real + minutes as real / 60.0 + seconds / 3600.0
  }

  function DmsToDecimal(text: string): (r: Conversion)
    ensures r.NoMatch? <==> Match(Strip(text, IsSpace)).None?
    ensures r.ValueError? <==>
      (Match(Strip(text, IsSpace)).Some? && Occurrences(Match(Strip(text, IsSpace)).value.seconds, '.') > 1)
      || (Match(Strip(text, IsSpace)).Some? && !HasDigit(Match(Strip(text, IsSpace)).value.seconds))
    ensures r.Value? ==> (r.v < 0.0 ==> Match(Strip(text, IsSpace)).value.direction in "SW")
  {
    MatchSound(Strip(text, IsSpace));
    match Match(Strip(text, IsSpace))
    case None => NoMatch
    case Some(f) =>
      match ParseDecimal(f.seconds)
      case None => ValueError
      case Some(seconds) => Value(Signed(f.direction, Magnitude(NatValue(f.degrees), NatValue(f.minutes), seconds)))
  }

  /** The text written for whole degrees and minutes and
      `whole + frac / 10^k` seconds, each integer part zero-padded to at
      least the width that follows it. */
  function DmsString(degrees: nat, dw: nat, minutes: nat, mw: nat, whole: nat, sw: nat, frac: nat, k: nat,
                     direction: char): string
  {
    Render(DmsText(Numeral(degrees, dw), Numeral(minutes, mw), Fixed(whole, sw, frac, k), direction))
  }

  /** A text that starts with a rendering of well-formed groups converts
      according to those groups, whatever follows the hemisphere letter. */
  lemma ConvertRendered(f: DmsText, rest: string)
    requires WellFormed(f)
    ensures Match(Strip(Render(f) + rest, IsSpace)) == Some(f)
  {
    var r := Render(f);
    RenderLayout(f);
    assert r[0] == f.degrees[0];
    StripKeepsPrefix(r + rest, r, IsSpace);
    MatchIff(Strip(r + rest, IsSpace), f);
  }

  lemma RenderedValue(f: DmsText, rest: string, seconds: real)
    requires WellFormed(f) && ParseDecimal(f.seconds).Some? && ParseDecimal(f.seconds).value == seconds
    ensures DmsToDecimal(Render(f) + rest)
         == Value(Signed(f.direction, Magnitude(NatValue(f.degrees), NatValue(f.minutes), seconds)))
  {
    ConvertRendered(f, rest);
  }

  lemma ConvertDmsString(degrees: nat, dw: nat, minutes: nat, mw: nat, whole: nat, sw: nat, frac: nat, k: nat,
                         direction: char, rest: string, seconds: real)
    requires IsDirection(direction)
    requires ParseDecimal(Fixed(whole, sw, frac, k)).Some? && ParseDecimal(Fixed(whole, sw, frac, k)).value == seconds
    ensures DmsToDecimal(DmsString(degrees, dw, minutes, mw, whole, sw, frac, k, direction) + rest)
         == Value(Signed(direction, Magnitude(degrees, minutes, seconds)))
  {
    var f := DmsText(Numeral(degrees, dw), Numeral(minutes, mw), Fixed(whole, sw, frac, k), direction);
    NumeralValue(degrees, dw);
    NumeralValue(minutes, mw);
    RenderedValue(f, rest, seconds);
  }

  /** Converting the rendering of DMS values gives back their decimal
      value, whatever the zero padding and whatever follows the hemisphere
      letter. */
  lemma DmsRoundTrip(degrees: nat, dw: nat, minutes: nat, mw: nat, whole: nat, sw: nat, frac: nat, k: nat,
                     direction: char, rest: string, seconds: real)
    requires frac < Pow10(k) && IsDirection(direction)
    requires seconds == whole as real + Shift(frac as real, k)
    ensures DmsToDecimal(DmsString(degrees, dw, minutes, mw, whole, sw, frac, k, direction) + rest)
         == Value(Signed(direction, Magnitude(degrees, minutes, seconds)))
  {
    FixedSeconds(whole, sw, frac, k);
    ConvertDmsString(degrees, dw, minutes, mw, whole, sw, frac, k, direction, rest, seconds);
  }

  lemma FixedSeconds(whole: nat, sw: nat, frac: nat, k: nat)
    requires frac < Pow10(k)
    ensures ParseDecimal(Fixed(whole, sw, frac, k)).Some?
    ensures ParseDecimal(Fixed(whole, sw, frac, k)).value == whole as real + Shift(frac as real, k)
  {
    ParseFixed(whole, sw, frac, k);
  }

  /** The rendering alone, with nothing after the hemisphere letter. */
  lemma DmsStringConverts(degrees: nat, dw: nat, minutes: nat, mw: nat, whole: nat, sw: nat, frac: nat, k: nat,
                          direction: char, seconds: real)
    requires frac < Pow10(k) && IsDirection(direction)
    requires seconds == whole as real + Shift(frac as real, k)
    ensures DmsToDecimal(DmsString(degrees, dw, minutes, mw, whole, sw, frac, k, direction))
         == Value(Signed(direction, Magnitude(degrees, minutes, seconds)))
  {
    var s := DmsString(degrees, dw, minutes, mw, whole, sw, frac, k, direction);
    DmsRoundTrip(degrees, dw, minutes, mw, whole, sw, frac, k, direction, "", seconds);
    assert s + "" == s;
  }

  /** Seconds with two dots pass the pattern but make float() raise. */
  lemma TwoDotsRaise(f: DmsText, rest: string)
    requires WellFormed(f) && Occurrences(f.seconds, '.') >= 2
    ensures DmsToDecimal(Render(f) + rest) == ValueError
  {
    ConvertRendered(f, rest);
  }

  /** The text of the example in the function's documentation. */
  lemma DocumentedText()
    ensures DmsString(45, 0, 39, 0, 21, 0, 0, 1, 'N') == "45°39'21.0\"\"N"
  {
    DocumentedPieces();
  }

  lemma DocumentedPieces()
    ensures Numeral(45, 0) == "45" && Numeral(39, 0) == "39" && Fixed(21, 0, 0, 1) == "21.0"
  {
    assert Digits(45) == "45" && Digits(39) == "39";
    assert Digits(21) == "21";
  }

  /** A coordinate as the data files pad it. */
  lemma PaddedText()
    ensures DmsString(1, 3, 51, 2, 16, 2, 9, 1, 'E') == "001°51'16.9\"\"E"
  {
    PaddedPieces();
  }

  lemma PaddedPieces()
    ensures Numeral(1, 3) == "001" && Numeral(51, 2) == "51" && Fixed(16, 2, 9, 1) == "16.9"
  {
    assert Zeros(1) == "0";
    assert Digits(51) == "51";
    assert Digits(16) == "16";
  }

  /** The example of the function's documentation: 45°39'21.0""N, however
      padded and followed by anything, converts to 45°39'21" north exactly. */
  lemma DocumentedExample(degrees: nat, dw: nat, minutes: nat, mw: nat, whole: nat, sw: nat, frac: nat, k: nat,
                          rest: string)
    requires degrees == 45 && minutes == 39 && whole == 21 && frac == 0 && k == 1
    ensures DmsToDecimal(DmsString(degrees, dw, minutes, mw, whole, sw, frac, k, 'N') + rest) == Value(Expected45N)
  {
    var seconds := whole as real + Shift(frac as real, k);
    DocumentedValue(degrees, minutes, whole, frac, k);
    assert Signed('N', Magnitude(degrees, minutes, seconds)) == Expected45N;
    DmsRoundTrip(degrees, dw, minutes, mw, whole, sw, frac, k, 'N', rest, seconds);
  }

  /** The exact value of 45°39'21" north, which the documentation rounds to
      45.6558333. */
  const Expected45N: real := 45.0 + 39.0 / 60.0 + 21.0 / 3600.0

  lemma DocumentedValue(degrees: nat, minutes: nat, whole: nat, frac: nat, k: nat)
    requires degrees == 45 && minutes == 39 && whole == 21 && frac == 0 && k == 1
    ensures Signed('N', Magnitude(degrees, minutes, whole as real + Shift(frac as real, k))) == Expected45N
    ensures -0.0000001 < Expected45N - 45.6558333 < 0.0000001
  {
    assert Shift(frac as real, k) == 0.0;
  }
}
