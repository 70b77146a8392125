/** The string primitives the coordinate-cleaning tools rely on: Python's
    `str.strip`, `str.split` with a one-character separator, and decimal
    digit strings. */
module Text {

  /** Python's `str.isspace`, the set `str.strip()` removes by default. */
  predicate IsSpace(c: char)
  {
    || c == ' '
    || ('\t' <= c <= '\r')
    || ('\U{1C}' <= c <= '\U{1F}')
    || c == '\U{85}' || c == '\U{A0}' || c == '\U{1680}'
    || ('\U{2000}' <= c <= '\U{200A}')
    || c == '\U{2028}' || c == '\U{2029}' || c == '\U{202F}' || c == '\U{205F}' || c == '\U{3000}'
  }

  predicate IsQuote(c: char)
  {
    c == '"'
  }

  // ---------------------------------------------------------------------
  // strip

  /** How many leading characters `drop` removes. */
  function LeadingDropped(s: string, drop: char -> bool): (i: nat)
    ensures i <= |s|
    ensures forall k :: 0 <= k < i ==> drop(s[k])
    ensures i < |s| ==> !drop(s[i])
  {
    if |s| == 0 || !drop(s[0]) then 0 else 1 + LeadingDropped(s[1..], drop)
  }

  /** The length left once trailing characters in `drop` are removed. */
  function TrailingKept(s: string, drop: char -> bool): (j: nat)
    ensures j <= |s|
    ensures forall k :: j <= k < |s| ==> drop(s[k])
    ensures j > 0 ==> !drop(s[j - 1])
  {
    if |s| == 0 || !drop(s[|s| - 1]) then |s| else TrailingKept(s[..|s| - 1], drop)
  }

  /** `s.strip(chars)`: removes the characters in `drop` from both ends. */
  function Strip(s: string, drop: char -> bool): (r: string)
    ensures |r| <= |s|
    ensures |r| > 0 ==> !drop(r[0]) && !drop(r[|r| - 1])
  {
    var t := s[..TrailingKept(s, drop)];
    t[LeadingDropped(t, drop)..]
  }

  /** `s` is `m` padded at both ends by characters in `drop`, and `m` does
      not itself start or end with one. */
  ghost predicate Padded(s: string, drop: char -> bool, a: string, m: string, b: string)
  {
    && s == a + m + b
    && (forall k :: 0 <= k < |a| ==> drop(a[k]))
    && (forall k :: 0 <= k < |b| ==> drop(b[k]))
    && (|m| > 0 ==> !drop(m[0]) && !drop(m[|m| - 1]))
  }

  /** Stripping recovers exactly the unpadded middle. */
  lemma StripUnique(s: string, drop: char -> bool, a: string, m: string, b: string)
    requires Padded(s, drop, a, m, b)
    ensures Strip(s, drop) == m
  {
    var j := TrailingKept(s, drop);
    if |m| > 0 {
      assert s[|a| + |m| - 1] == m[|m| - 1];
      forall k | |a| + |m| <= k < |s| ensures drop(s[k]) {
        assert s[k] == b[k - |a| - |m|];
      }
      assert j == |a| + |m|;
    } else {
      forall k | 0 <= k < |s| ensures drop(s[k]) {
        if k < |a| { assert s[k] == a[k]; } else { assert s[k] == b[k - |a|]; }
      }
      assert j == 0;
    }
    assert s[..|a| + |m|] == a + m;
    var t := s[..j];
    var i := LeadingDropped(t, drop);
    if |m| > 0 {
      assert t[|a|] == m[0];
      forall k | 0 <= k < |a| ensures drop(t[k]) {
        assert t[k] == a[k];
      }
      assert i == |a|;
    }
    assert t[i..] == m;
  }

  /** A prefix that starts and ends with kept characters survives stripping. */
  lemma StripKeepsPrefix(s: string, p: string, drop: char -> bool)
    requires p <= s && |p| > 0
    requires !drop(p[0]) && !drop(p[|p| - 1])
    ensures p <= Strip(s, drop)
  {
    var j := TrailingKept(s, drop);
    assert s[|p| - 1] == p[|p| - 1];
    assert j >= |p|;
    var t := s[..j];
    assert t[0] == p[0];
    assert LeadingDropped(t, drop) == 0;
  }

  /** A string that neither starts nor ends with a dropped character is
      left as it is. */
  lemma StripClean(s: string, drop: char -> bool)
    requires |s| > 0 ==> !drop(s[0]) && !drop(s[|s| - 1])
    ensures Strip(s, drop) == s
  {
    assert s == "" + s + "";
    StripUnique(s, drop, "", s, "");
  }

  /** Stripping only removes characters. */
  lemma StripKeepsOut(s: string, drop: char -> bool, c: char)
    ensures c !in s ==> c !in Strip(s, drop)
  {
    var t := s[..TrailingKept(s, drop)];
    var i := LeadingDropped(t, drop);
    forall k | 0 <= k < |t| - i
      ensures t[i..][k] == s[i + k]
    {
    }
  }

  lemma StripIdempotent(s: string, drop: char -> bool)
    ensures Strip(Strip(s, drop), drop) == Strip(s, drop)
  {
    var r := Strip(s, drop);
    assert Padded(r, drop, "", r, "");
    StripUnique(r, drop, "", r, "");
  }

  // ---------------------------------------------------------------------
  // split

  function Occurrences(s: string, c: char): nat
  {
    if |s| == 0 then 0 else (if s[0] == c then 1 else 0) + Occurrences(s[1..], c)
  }

  /** Inverse of `Split`: the parts separated by `sep`. */
  function Join(parts: seq<string>, sep: char): string
    requires |parts| >= 1
  {
    if |parts| == 1 then parts[0] else parts[0] + [sep] + Join(parts[1..], sep)
  }

  /** `s.split(sep)`: every occurrence of `sep` separates two parts, so
      there is always one more part than separators. */
  function Split(s: string, sep: char): (parts: seq<string>)
    ensures |parts| == Occurrences(s, sep) + 1
    ensures forall k :: 0 <= k < |parts| ==> sep !in parts[k]
    ensures Join(parts, sep) == s
  {
    if |s| == 0 then [""]
    else
      var rest := Split(s[1..], sep);
      if s[0] == sep then
        assert ([""] + rest)[1..] == rest;
        assert s == [] + [sep] + s[1..];
        [""] + rest
      else
        var parts := [[s[0]] + rest[0]] + rest[1..];
        assert parts[1..] == rest[1..];
        assert |rest| == 1 ==> Join(parts, sep) == s;
        assert |rest| > 1 ==> Join(parts, sep) == [s[0]] + (rest[0] + [sep] + Join(rest[1..], sep));
        parts
  }

  /** A string with a separator splits into at least two parts. */
  lemma SplitFindsSeparator(s: string, sep: char)
    ensures sep in s <==> |Split(s, sep)| >= 2
  {
    var parts := Split(s, sep);
    if |parts| == 1 {
      assert s == parts[0];
    } else {
      assert s == parts[0] + [sep] + Join(parts[1..], sep);
      assert s[|parts[0]|] == sep;
    }
  }

  lemma {:induction false} SplitHead(a: string, rest: string, sep: char)
    requires sep !in a
    ensures Split(a + [sep] + rest, sep) == [a] + Split(rest, sep)
    decreases |a|
  {
    if |a| == 0 {
      assert a + [sep] + rest == [sep] + rest;
      assert ([sep] + rest)[1..] == rest;
    } else {
      var s := a + [sep] + rest;
      assert s[0] == a[0] && s[1..] == a[1..] + [sep] + rest;
      SplitHead(a[1..], rest, sep);
      assert [a[0]] + a[1..] == a;
    }
  }

  lemma {:induction false} SplitWhole(a: string, sep: char)
    requires sep !in a
    ensures Split(a, sep) == [a]
    decreases |a|
  {
    if |a| > 0 {
      SplitWhole(a[1..], sep);
      assert [a[0]] + a[1..] == a;
    }
  }

  /** Splitting undoes joining, provided no part contains the separator. */
  lemma {:induction false} SplitJoin(parts: seq<string>, sep: char)
    requires |parts| >= 1
    requires forall k :: 0 <= k < |parts| ==> sep !in parts[k]
    ensures Split(Join(parts, sep), sep) == parts
    decreases |parts|
  {
    if |parts| == 1 {
      SplitWhole(parts[0], sep);
    } else {
      SplitJoin(parts[1..], sep);
      SplitHead(parts[0], Join(parts[1..], sep), sep);
      assert [parts[0]] + parts[1..] == parts;
    }
  }

  lemma SplitTwo(a: string, b: string, sep: char)
    requires sep !in a && sep !in b
    ensures Split(a + [sep] + b, sep) == [a, b]
  {
    SplitHead(a, b, sep);
    SplitWhole(b, sep);
  }

  lemma SplitThree(a: string, b: string, c: string, sep: char)
    requires sep !in a && sep !in b && sep !in c
    ensures Split(a + [sep] + b + [sep] + c, sep) == [a, b, c]
  {
    SplitTwoThen(a, b, c, sep);
    SplitWhole(c, sep);
  }

  /** Two leading fields come off whatever the rest holds. */
  lemma SplitTwoThen(a: string, b: string, c: string, sep: char)
    requires sep !in a && sep !in b
    ensures Split(a + [sep] + b + [sep] + c, sep) == [a, b] + Split(c, sep)
  {
    assert a + [sep] + b + [sep] + c == a + [sep] + (b + [sep] + c);
    SplitHead(a, b + [sep] + c, sep);
    SplitHead(b, c, sep);
  }

  // ---------------------------------------------------------------------
  // decimal digits

  predicate IsDigit(c: char)
  {
    '0' <= c <= '9'
  }

  predicate AllDigits(s: string)
  {
    forall k :: 0 <= k < |s| ==> IsDigit(s[k])
  }

  function DigitChar(d: nat): (c: char)
    requires d < 10
    ensures IsDigit(c)
  {
    ('0' as int + d) as char
  }

  function Pow10(k: nat): (p: nat)
    ensures p >= 1
  {
    if k == 0 then 1 else 10 * Pow10(k - 1)
  }

  /** The number a digit string denotes (most significant digit first). */
  function NatValue(s: string): (n: nat)
    requires AllDigits(s)
    ensures n < Pow10(|s|)
  {
    if |s| == 0 then 0 else 10 * NatValue(s[..|s| - 1]) + (s[|s| - 1] as int - '0' as int)
  }

  /** The shortest decimal rendering of `n`. */
  function Digits(n: nat): (s: string)
    ensures |s| >= 1 && AllDigits(s)
  {
    if n < 10 then [DigitChar(n)] else Digits(n / 10) + [DigitChar(n % 10)]
  }

  /** Exactly `k` digits, with leading zeros. */
  function PadDigits(v: nat, k: nat): (s: string)
    ensures |s| == k && AllDigits(s)
  {
    if k == 0 then [] else PadDigits(v / 10, k - 1) + [DigitChar(v % 10)]
  }

  /** `n` written with leading zeros up to at least `width` digits, the
      way the data files write degrees (`001`) and minutes (`08`). */
  function Numeral(n: nat, width: nat): (s: string)
    ensures |s| >= 1 && |s| >= width && AllDigits(s)
  {
    var d := Digits(n);
    if |d| >= width then d else Zeros(width - |d|) + d
  }

  function Zeros(k: nat): (s: string)
    ensures |s| == k && AllDigits(s)
  {
    if k == 0 then [] else Zeros(k - 1) + "0"
  }

  lemma {:induction false} ZerosValue(k: nat)
    ensures NatValue(Zeros(k)) == 0
    decreases k
  {
    if k > 0 {
      ZerosValue(k - 1);
      var z := Zeros(k);
      assert z[..k - 1] == Zeros(k - 1) && z[k - 1] == '0';
      assert NatValue(z) == 10 * NatValue(Zeros(k - 1)) + 0;
    }
  }

  /** Leading zeros do not change the value of a digit string. */
  lemma {:induction false} LeadingZerosValue(k: nat, s: string)
    requires AllDigits(s)
    ensures NatValue(Zeros(k) + s) == NatValue(s)
    decreases |s|
  {
    var t := Zeros(k) + s;
    if |s| == 0 {
      assert t == Zeros(k);
      ZerosValue(k);
    } else {
      LeadingZerosValue(k, s[..|s| - 1]);
      assert t[..|t| - 1] == Zeros(k) + s[..|s| - 1];
      assert t[|t| - 1] == s[|s| - 1];
    }
  }

  lemma NumeralValue(n: nat, width: nat)
    ensures NatValue(Numeral(n, width)) == n
  {
    var d := Digits(n);
    DigitsValue(n);
    if |d| < width {
      LeadingZerosValue(width - |d|, d);
    }
  }

  lemma {:induction false} DigitsValue(n: nat)
    ensures NatValue(Digits(n)) == n
    decreases n
  {
    var s := Digits(n);
    if n >= 10 {
      DigitsValue(n / 10);
      assert s[..|s| - 1] == Digits(n / 10);
    }
  }

  lemma {:induction false} PadDigitsValue(v: nat, k: nat)
    requires v < Pow10(k)
    ensures NatValue(PadDigits(v, k)) == v
    decreases k
  {
    if k > 0 {
      var s := PadDigits(v, k);
      PadDigitsValue(v / 10, k - 1);
      assert s[..|s| - 1] == PadDigits(v / 10, k - 1);
    }
  }
}
