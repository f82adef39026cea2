/** String helpers shared by the scripts: decimal rendering of numbers as
    JavaScript's template literals print them, `padStart(2, '0')`, decimal
    parsing of digit runs, `parseInt`, and splitting/joining on one separator
    character. */
module Text {
  import opened Wrappers

  predicate IsDigit(c: char) {
    '0' <= c <= '9'
  }

  predicate AllDigits(s: string) {
    forall i :: 0 <= i < |s| ==> IsDigit(s[i])
  }

  function DigitChar(d: nat): (c: char)
    requires d < 10
    ensures IsDigit(c) && c as int - '0' as int == d
  {
    (d + '0' as int) as char
  }

  /** The number a run of decimal digits denotes (most significant first). */
  function DigitsValue(s: string): nat
    requires AllDigits(s)
  {
    if s == [] then 0 else DigitsValue(s[..|s| - 1]) * 10 + (s[|s| - 1] as int - '0' as int)
  }

  /** Decimal rendering of a natural number, without leading zeros. */
  function NatToString(n: nat): (r: string)
    ensures 1 <= |r| && AllDigits(r)
    ensures DigitsValue(r) == n
    ensures r[0] == '0' ==> n == 0 && |r| == 1
    decreases n
  {
    if n < 10 then
      [DigitChar(n)]
    else
      var p := NatToString(n / 10);
      var r := p + [DigitChar(n % 10)];
      assert r[..|r| - 1] == p;
      r
  }

  /** `${n}` for an integer `n`. */
  function IntToString(n: int): (r: string)
    ensures 1 <= |r|
    ensures n >= 0 ==> r == NatToString(n)
    ensures n < 0 ==> r[0] == '-' && r[1..] == NatToString(-n)
  {
    if n < 0 then "-" + NatToString(-n) else NatToString(n)
  }

  /** `s.padStart(2, '0')`. */
  function ZeroPad2(s: string): (r: string)
    ensures |r| == if |s| < 2 then 2 else |s|
    ensures r[|r| - |s|..] == s
    ensures forall i :: 0 <= i < |r| - |s| ==> r[i] == '0'
  {
    if |s| == 0 then "00" else if |s| == 1 then "0" + s else s
  }

  lemma {:induction false} NatToStringLength(n: nat)
    ensures n < 10 ==> |NatToString(n)| == 1
    ensures 10 <= n < 100 ==> |NatToString(n)| == 2
    ensures 100 <= n < 1000 ==> |NatToString(n)| == 3
    ensures 1000 <= n < 10000 ==> |NatToString(n)| == 4
  {
    if n >= 10 {
      NatToStringLength(n / 10);
    }
  }

  lemma {:induction false} LeadingDigitPositive(s: string)
    requires AllDigits(s) && |s| >= 1 && s[0] != '0'
    ensures DigitsValue(s) >= 1
  {
    if |s| > 1 {
      LeadingDigitPositive(s[..|s| - 1]);
    }
  }

  /** Rendering a digit run without a leading zero gives the run back. */
  lemma {:induction false} NatToStringOfDigits(s: string)
    requires AllDigits(s) && |s| >= 1
    requires |s| == 1 || s[0] != '0'
    ensures NatToString(DigitsValue(s)) == s
  {
    var p := s[..|s| - 1];
    var last := s[|s| - 1] as int - '0' as int;
    if |s| == 1 {
      assert DigitsValue(s) == last;
      assert DigitChar(last) == s[0];
    } else {
      LeadingDigitPositive(p);
      NatToStringOfDigits(p);
      var v := DigitsValue(s);
      assert v / 10 == DigitsValue(p) && v % 10 == last;
      assert DigitChar(last) == s[|s| - 1];
      assert s == p + [s[|s| - 1]];
    }
  }

  /** A two-digit run is reproduced by rendering its value and padding to two. */
  lemma TwoDigitsRoundTrip(s: string)
    requires AllDigits(s) && |s| == 2
    ensures ZeroPad2(NatToString(DigitsValue(s))) == s
  {
    if s[0] == '0' {
      assert DigitsValue(s[..1]) == 0;
      NatToStringOfDigits(s[1..]);
      assert DigitsValue(s) == DigitsValue(s[1..]);
      assert s == "0" + s[1..];
    } else {
      NatToStringOfDigits(s);
    }
  }

  // ---------------------------------------------------------------------------
  // `parseInt(s)` without a radix.
  // ---------------------------------------------------------------------------

  /** The characters ECMAScript counts as white space or line terminators:
      what `\s` matches in a regular expression and what `parseInt` skips.
      They are the ASCII white space, the no-break and other Unicode space
      separators, the line and paragraph separators, and the byte order mark. */
  predicate IsJsSpace(c: char) {
    c == ' ' || c == '\t' || c == '\n' || c == '\U{000B}' || c == '\U{000C}' || c == '\r'
    || c == '\U{00A0}' || c == '\U{1680}' || ('\U{2000}' <= c <= '\U{200A}')
    || c == '\U{2028}' || c == '\U{2029}' || c == '\U{202F}' || c == '\U{205F}'
    || c == '\U{3000}' || c == '\U{FEFF}'
  }

  /** `s` without its leading white space. */
  function SkipJsSpace(s: string): (r: string)
    ensures |r| <= |s| && r == s[|s| - |r|..]
    ensures r == [] || !IsJsSpace(r[0])
    ensures forall i :: 0 <= i < |s| - |r| ==> IsJsSpace(s[i])
  {
    if s != [] && IsJsSpace(s[0]) then SkipJsSpace(s[1..]) else s
  }

  /** The longest prefix of `s` made of characters `ok` accepts. */
  function LongestPrefix(s: string, ok: char -> bool): (r: string)
    ensures r <= s
    ensures forall i :: 0 <= i < |r| ==> ok(r[i])
    ensures |r| < |s| ==> !ok(s[|r|])
  {
    if s == [] || !ok(s[0]) then [] else [s[0]] + LongestPrefix(s[1..], ok)
  }

  /** A text made only of accepted characters is its own longest prefix. */
  lemma {:induction false} LongestPrefixWhole(s: string, ok: char -> bool)
    requires forall i :: 0 <= i < |s| ==> ok(s[i])
    ensures LongestPrefix(s, ok) == s
  {
    if s != [] {
      LongestPrefixWhole(s[1..], ok);
      assert [s[0]] + s[1..] == s;
    }
  }

  predicate IsHexDigit(c: char) {
    IsDigit(c) || 'a' <= c <= 'f' || 'A' <= c <= 'F'
  }

  function HexDigitValue(c: char): (v: nat)
    requires IsHexDigit(c)
    ensures v < 16
    ensures IsDigit(c) ==> v == c as int - '0' as int
  {
    if IsDigit(c) then c as int - '0' as int
    else if 'a' <= c <= 'f' then c as int - 'a' as int + 10
    else c as int - 'A' as int + 10
  }

  /** The number a run of hexadecimal digits denotes. */
  function HexValue(s: string): nat
    requires forall i :: 0 <= i < |s| ==> IsHexDigit(s[i])
  {
    if s == [] then 0 else HexValue(s[..|s| - 1]) * 16 + HexDigitValue(s[|s| - 1])
  }

  /** The digits after the sign: a `0x` or `0X` prefix reads the hexadecimal
      digits after it, otherwise the decimal digits are read; no digits at
      all is NaN (`None`). */
  function ParseMagnitude(u: string): (r: Option<nat>)
    ensures AllDigits(u) && u != [] ==> r == Some(DigitsValue(u))
  {
    if |u| >= 2 && u[0] == '0' && (u[1] == 'x' || u[1] == 'X') then
      var h := LongestPrefix(u[2..], IsHexDigit);
      if h == [] then None else Some(HexValue(h))
    else
      var d := LongestPrefix(u, IsDigit);
      assert AllDigits(u) ==> d == u by {
        if AllDigits(u) { LongestPrefixWhole(u, IsDigit); }
      }
      if d == [] then None else Some(DigitsValue(d))
  }

  /** The text after the leading white space: an optional `+` or `-`, then
      `ParseMagnitude`. `-0` is 0, the two being `===`. */
  function ParseSigned(t: string): (r: Option<int>)
    ensures AllDigits(t) && t != [] ==> r == Some(DigitsValue(t))
  {
    if t != [] && t[0] == '-' then
      match ParseMagnitude(t[1..])
      case None => None
      case Some(v) => Some(0 - v)
    else
      ParseMagnitude(if t != [] && t[0] == '+' then t[1..] else t)
  }

  /** `parseInt(s)`: leading white space is skipped, then the sign and the
      digits are read. NaN is `None`. */
  function ParseInt(s: string): (r: Option<int>)
    ensures AllDigits(s) && s != [] ==> r == Some(DigitsValue(s))
  {
    assert AllDigits(s) && s != [] ==> SkipJsSpace(s) == s;
    ParseSigned(SkipJsSpace(s))
  }

  /** Leading white space does not change what `parseInt` reads. */
  lemma ParseIntSkipsSpace(c: char, s: string)
    requires IsJsSpace(c)
    ensures ParseInt([c] + s) == ParseInt(s)
  {
    assert ([c] + s)[1..] == s;
    assert SkipJsSpace([c] + s) == SkipJsSpace(s);
  }

  /** Text that does not start with white space is read as it stands. */
  lemma SkipNothing(s: string)
    requires s != [] && (IsDigit(s[0]) || s[0] == '-' || s[0] == '+')
    ensures SkipJsSpace(s) == s
  {
    assert !IsJsSpace(s[0]);
  }

  /** `parseInt` reads back every integer that `String(n)` prints. */
  lemma ParseIntOfIntToString(n: int)
    ensures ParseInt(IntToString(n)) == Some(n)
  {
    var t := IntToString(n);
    SkipNothing(t);
    if n < 0 {
      var digits := NatToString(-n);
      assert t[1..] == digits;
      assert ParseMagnitude(digits) == Some(-n);
      assert ParseSigned(t) == Some(0 - (-n));
    } else {
      assert ParseMagnitude(t) == Some(n);
    }
  }

  /** White space and a sign before the digits. */
  lemma ParseIntSignExamples()
    ensures ParseInt(" 3") == Some(3) && ParseInt("+3") == Some(3)
    ensures ParseInt("-3") == Some(-3) && ParseInt("-0") == Some(0)
  {
    assert AllDigits("3") && DigitsValue("3") == 3;
    assert AllDigits("0") && DigitsValue("0") == 0;
    ParseIntSkipsSpace(' ', "3");
    assert [' '] + "3" == " 3";
    SkipNothing("+3");
    assert "+3"[1..] == "3";
    SkipNothing("-3");
    assert "-3"[1..] == "3";
    SkipNothing("-0");
    assert "-0"[1..] == "0";
  }

  /** A `0x` prefix reads hexadecimal digits. */
  lemma ParseIntHexExample()
    ensures ParseInt("0x0A") == Some(10)
  {
    SkipNothing("0x0A");
    var h := "0x0A"[2..];
    assert h == "0A";
    LongestPrefixWhole(h, IsHexDigit);
    assert HexValue(h) == 10 by { assert h[..1] == "0"; }
    assert ParseMagnitude("0x0A") == Some(10);
  }

  /** Reading stops at the first character that is not a digit. */
  lemma ParseIntTrailingExample()
    ensures ParseInt("3rd") == Some(3)
  {
    SkipNothing("3rd");
    var d := LongestPrefix("3rd", IsDigit);
    assert d == "3" by { assert "3rd"[1..] == "rd"; }
    assert DigitsValue(d) == 3;
  }

  /** No digits where digits are expected is NaN: a letter, a bare `0x`, or
      nothing at all. */
  lemma ParseIntNaNLetter()
    ensures ParseInt("x") == None
  {
    var x := "x";
    assert x[0] == 'x' && |x| == 1;
    ParseIntNoDigit(x);
  }

  /** A text starting with anything but white space, a sign or a digit is NaN. */
  lemma ParseIntNoDigit(s: string)
    requires s != [] && !IsJsSpace(s[0]) && !IsDigit(s[0]) && s[0] != '+' && s[0] != '-'
    ensures ParseInt(s) == None
  {
    assert SkipJsSpace(s) == s;
    assert LongestPrefix(s, IsDigit) == [];
  }

  lemma ParseIntNaNPrefix()
    ensures ParseInt("0x") == None && ParseInt("") == None
  {
    var p := "0x";
    assert p[0] == '0' && p[1] == 'x' && |p| == 2;
    ParseIntBarePrefix(p);
    ParseIntEmpty([]);
  }

  /** `0x` with no hexadecimal digit after it is NaN. */
  lemma ParseIntBarePrefix(s: string)
    requires |s| == 2 && s[0] == '0' && (s[1] == 'x' || s[1] == 'X')
    ensures ParseInt(s) == None
  {
    SkipNothing(s);
    assert s[2..] == [];
  }

  lemma ParseIntEmpty(s: string)
    requires s == []
    ensures ParseInt(s) == None
  {
    assert SkipJsSpace(s) == s;
    assert LongestPrefix(s, IsDigit) == [];
  }

  // ---------------------------------------------------------------------------
  // Splitting and joining on one separator character (`str.split('.')`,
  // lines joined by a newline).
  // ---------------------------------------------------------------------------

  /** `s.split(sep)` for a one-character separator: always at least one part. */
  function Split(s: string, sep: char): (parts: seq<string>)
    ensures |parts| >= 1
    ensures forall i :: 0 <= i < |parts| ==> sep !in parts[i]
  {
    if s == [] then
      [[]]
    else if s[0] == sep then
      [[]] + Split(s[1..], sep)
    else
      var t := Split(s[1..], sep);
      [[s[0]] + t[0]] + t[1..]
  }

  /** `parts.join(sep)`. */
  function Join(parts: seq<string>, sep: char): string {
    if |parts| == 0 then []
    else if |parts| == 1 then parts[0]
    else parts[0] + [sep] + Join(parts[1..], sep)
  }

  lemma {:induction false} JoinSplit(s: string, sep: char)
    ensures Join(Split(s, sep), sep) == s
  {
    if s != [] {
      JoinSplit(s[1..], sep);
      if s[0] != sep {
        var t := Split(s[1..], sep);
        if |t| > 1 {
          assert Join(t, sep) == t[0] + [sep] + Join(t[1..], sep);
          assert ([[s[0]] + t[0]] + t[1..])[1..] == t[1..];
        }
      }
    }
  }

  /** A separator in the text separates parts: splitting distributes over it. */
  lemma {:induction false} SplitAround(a: string, sep: char, b: string)
    ensures Split(a + [sep] + b, sep) == Split(a, sep) + Split(b, sep)
  {
    if a == [] {
      assert [] + [sep] + b == [sep] + b;
      assert ([sep] + b)[1..] == b;
    } else {
      assert (a + [sep] + b)[0] == a[0];
      assert (a + [sep] + b)[1..] == a[1..] + [sep] + b;
      SplitAround(a[1..], sep, b);
    }
  }

  lemma {:induction false} SplitWithoutSeparator(s: string, sep: char)
    requires sep !in s
    ensures Split(s, sep) == [s]
  {
    if s != [] {
      SplitWithoutSeparator(s[1..], sep);
      assert [s[0]] + s[1..] == s;
    }
  }

  /** Joining parts that hold no separator and splitting again gives the parts back. */
  lemma {:induction false} SplitJoin(parts: seq<string>, sep: char)
    requires |parts| >= 1
    requires forall i :: 0 <= i < |parts| ==> sep !in parts[i]
    ensures Split(Join(parts, sep), sep) == parts
  {
    if |parts| == 1 {
      SplitWithoutSeparator(parts[0], sep);
    } else {
      SplitJoin(parts[1..], sep);
      SplitAround(parts[0], sep, Join(parts[1..], sep));
      SplitWithoutSeparator(parts[0], sep);
      assert [parts[0]] + parts[1..] == parts;
    }
  }

  // ---------------------------------------------------------------------------
  // Counting and case.
  // ---------------------------------------------------------------------------

  function CountChar(s: string, c: char): nat {
    if s == [] then 0 else (if s[0] == c then 1 else 0) + CountChar(s[1..], c)
  }

  function UpperAscii(c: char): char {
    if 'a' <= c <= 'z' then (c as int - 32) as char else c
  }

  /** `s.toUpperCase()` restricted to the ASCII letters the scripts use. */
  function ToUpperAscii(s: string): (r: string)
    ensures |r| == |s|
    ensures forall i :: 0 <= i < |s| ==> r[i] == UpperAscii(s[i])
  {
    if s == [] then [] else [UpperAscii(s[0])] + ToUpperAscii(s[1..])
  }
}
