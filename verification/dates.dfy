/** Gregorian calendar arithmetic behind the month grid, and the ISO
    `YYYY-MM-DD` day keys the event records and the grid cells use.

    Event dates are read as timezone-less calendar days: a date string denotes
    the day it spells, whatever the viewer's time zone. */
module Dates {
  import opened Wrappers
  import opened Text

  /** A calendar day; `month` is zero-based, as `Date.getMonth()` returns it. */
  datatype Date = Date(year: int, month: int, day: int)

  predicate IsLeapYear(y: int) {
    y % 4 == 0 && (y % 100 != 0 || y % 400 == 0)
  }

  function YearLength(y: int): int {
    if IsLeapYear(y) then 366 else 365
  }

  /** Days in zero-based month `m` of year `y`, Gregorian leap rule. */
  function DaysInMonth(y: int, m: int): (n: int)
    requires 0 <= m < 12
    ensures 28 <= n <= 31
  {
    if m == 1 then (if IsLeapYear(y) then 29 else 28)
    else if m == 3 || m == 5 || m == 8 || m == 10 then 30
    else 31
  }

  predicate ValidDate(d: Date) {
    0 <= d.month < 12 && 1 <= d.day <= DaysInMonth(d.year, d.month)
  }

  /** Days from 1 January of year 0 (proleptic Gregorian) to 1 January of `y`. */
  function DaysBeforeYear(y: int): int {
    365 * y + (y + 3) / 4 - (y + 99) / 100 + (y + 399) / 400
  }

  /** Days from 1 January to the first of zero-based month `m`, as a table. */
  function DaysBeforeMonth(y: int, m: int): int
    requires 0 <= m <= 12
  {
    [0, 31, 59, 90, 120, 151, 181, 212, 243, 273, 304, 334, 365][m]
    + (if IsLeapYear(y) && m >= 2 then 1 else 0)
  }

  /** Days from 1 January of year 0 to `d`. */
  function DayNumber(d: Date): int
    requires 0 <= d.month < 12
  {
    DaysBeforeYear(d.year) + DaysBeforeMonth(d.year, d.month) + d.day - 1
  }

  /** `Date.getDay()`: 0 is Sunday. 1 January of year 0 was a Saturday. */
  function Weekday(d: Date): (w: int)
    requires 0 <= d.month < 12
    ensures 0 <= w < 7
  {
    (DayNumber(d) + 6) % 7
  }

  /** The cumulative table agrees with the month lengths. */
  lemma DaysBeforeMonthStep(y: int, m: int)
    requires 0 <= m < 12
    ensures DaysBeforeMonth(y, m + 1) == DaysBeforeMonth(y, m) + DaysInMonth(y, m)
    ensures DaysBeforeMonth(y, 12) == YearLength(y)
  {
  }

  /** Consecutive years are as far apart as the first one is long. */
  lemma YearStep(y: int)
    ensures DaysBeforeYear(y + 1) == DaysBeforeYear(y) + YearLength(y)
  {
    DivSucc(y + 3, 4, y);
    DivSucc(y + 99, 100, y);
    DivSucc(y + 399, 400, y);
    var a4 := if y % 4 == 0 then 1 else 0;
    var a100 := if y % 100 == 0 then 1 else 0;
    var a400 := if y % 400 == 0 then 1 else 0;
    assert DaysBeforeYear(y + 1) == DaysBeforeYear(y) + 365 + a4 - a100 + a400;
    if y % 100 == 0 {
      DivModUnique(y, 4, 25 * (y / 100), 0);
    }
    if y % 400 == 0 {
      DivModUnique(y, 100, 4 * (y / 400), 0);
    }
  }

  /** Floor division by `k` steps up by one exactly when `a + 1` reaches a
      multiple of `k`, that is, when `y` is one (`a + 1 == y + k`). */
  lemma DivSucc(a: int, k: int, y: int)
    requires k > 0 && a + 1 == y + k
    ensures (a + 1) / k == a / k + (if y % k == 0 then 1 else 0)
  {
    var q, r := a / k, a % k;
    assert a == k * q + r && 0 <= r < k;
    if r + 1 < k {
      DivModUnique(a + 1, k, q, r + 1);
      DivModUnique(y, k, q - 1, r + 1);
    } else {
      DivModUnique(a + 1, k, q + 1, 0);
      DivModUnique(y, k, q, 0);
    }
  }

  lemma DivModUnique(a: int, k: int, q: int, r: int)
    requires k > 0 && 0 <= r < k && a == k * q + r
    ensures a / k == q && a % k == r
  {
    var q', r' := a / k, a % k;
    assert a == k * q' + r' && 0 <= r' < k;
    assert k * (q - q') == r' - r;
    if q > q' {
      MulAtLeast(k, q - q');
    } else if q < q' {
      MulAtLeast(k, q' - q);
    }
  }

  lemma {:induction false} MulAtLeast(k: int, d: int)
    requires k > 0 && d >= 1
    ensures k * d >= k
    decreases d
  {
    if d > 1 {
      MulAtLeast(k, d - 1);
      assert k * d == k * (d - 1) + k;
    }
  }

  lemma ModAddDays(a: int, n: int)
    ensures (a + n) % 7 == (a % 7 + n) % 7
  {
    var q := a / 7;
    assert a == 7 * q + a % 7;
    var q2, r2 := (a % 7 + n) / 7, (a % 7 + n) % 7;
    assert a % 7 + n == 7 * q2 + r2;
    DivModUnique(a + n, 7, q + q2, r2);
  }

  /** The first of the month after (`m`, `y`) falls `DaysInMonth(y, m)` days
      after the first of (`m`, `y`), across a year boundary too. */
  lemma NextFirstWeekday(y: int, m: int)
    requires 0 <= m < 12
    ensures m < 11 ==> Weekday(Date(y, m + 1, 1)) == (Weekday(Date(y, m, 1)) + DaysInMonth(y, m)) % 7
    ensures m == 11 ==> Weekday(Date(y + 1, 0, 1)) == (Weekday(Date(y, 11, 1)) + DaysInMonth(y, 11)) % 7
  {
    DaysBeforeMonthStep(y, m);
    YearStep(y);
    var n := DayNumber(Date(y, m, 1));
    ModAddDays(n + 6, DaysInMonth(y, m));
    if m < 11 {
      assert DayNumber(Date(y, m + 1, 1)) == n + DaysInMonth(y, m);
    } else {
      assert DayNumber(Date(y + 1, 0, 1)) == n + DaysInMonth(y, m);
    }
  }

  /** Calendar order: by year, then by month, then by day. */
  predicate NotLater(a: Date, b: Date) {
    a.year < b.year || (a.year == b.year && (a.month < b.month || (a.month == b.month && a.day <= b.day)))
  }

  lemma {:induction false} DaysBeforeYearMonotone(a: int, b: int)
    requires a <= b
    ensures DaysBeforeYear(a) <= DaysBeforeYear(b)
    decreases b - a
  {
    if a < b {
      YearStep(a);
      DaysBeforeYearMonotone(a + 1, b);
    }
  }

  lemma DaysBeforeMonthMonotone(y: int, i: int, j: int)
    requires 0 <= i <= j <= 12
    ensures DaysBeforeMonth(y, i) <= DaysBeforeMonth(y, j)
  {
  }

  /** A valid date's day number lies inside its month's and its year's span. */
  lemma DayNumberBounds(d: Date)
    requires ValidDate(d)
    ensures DaysBeforeYear(d.year) + DaysBeforeMonth(d.year, d.month) <= DayNumber(d)
    ensures DayNumber(d) < DaysBeforeYear(d.year) + DaysBeforeMonth(d.year, d.month + 1)
    ensures DayNumber(d) < DaysBeforeYear(d.year + 1)
  {
    YearStep(d.year);
    DaysBeforeMonthStep(d.year, d.month);
    DaysBeforeMonthMonotone(d.year, d.month + 1, 12);
  }

  /** Day numbers order valid dates as the calendar does. */
  lemma DayNumberOrder(a: Date, b: Date)
    requires ValidDate(a) && ValidDate(b)
    ensures DayNumber(a) <= DayNumber(b) <==> NotLater(a, b)
  {
    DayNumberBounds(a);
    DayNumberBounds(b);
    if a.year < b.year {
      DaysBeforeYearMonotone(a.year + 1, b.year);
    } else if b.year < a.year {
      DaysBeforeYearMonotone(b.year + 1, a.year);
    } else if a.month < b.month {
      DaysBeforeMonthMonotone(a.year, a.month + 1, b.month);
    } else if b.month < a.month {
      DaysBeforeMonthMonotone(a.year, b.month + 1, a.month);
    }
  }

  /** Calendar anchors: 1 January 2000 was a Saturday, 1 January 2025 a
      Wednesday, and February 2024 has 29 days while February 2025 and 1900 have 28. */
  lemma CalendarAnchors()
    ensures Weekday(Date(2000, 0, 1)) == 6
    ensures Weekday(Date(2025, 0, 1)) == 3
    ensures Weekday(Date(2024, 1, 1)) == 4
    ensures DaysInMonth(2024, 1) == 29 && DaysInMonth(2025, 1) == 28 && DaysInMonth(1900, 1) == 28
  {
  }

  // ---------------------------------------------------------------------------
  // ISO day keys.
  // ---------------------------------------------------------------------------

  predicate IsoShaped(s: string) {
    && |s| == 10 && s[4] == '-' && s[7] == '-'
    && AllDigits(s[..4]) && AllDigits(s[5..7]) && AllDigits(s[8..])
  }

  /** `new Date(s)` read as a calendar day: `YYYY-MM-DD` naming a real day,
      otherwise an invalid date (`None`). */
  function ParseIsoDate(s: string): (r: Option<Date>)
    ensures r.Some? ==> IsoShaped(s) && ValidDate(r.value)
    ensures r.Some? ==> 0 <= r.value.year <= 9999
  {
    if !IsoShaped(s) then None
    else
      var y := DigitsValue(s[..4]);
      var m := DigitsValue(s[5..7]) - 1;
      var d := DigitsValue(s[8..]);
      DigitsValueFour(s[..4]);
      if 0 <= m < 12 && 1 <= d <= DaysInMonth(y, m) then Some(Date(y, m, d)) else None
  }

  /** `${y}-${String(m + 1).padStart(2, '0')}-${String(d).padStart(2, '0')}`. */
  function DayKey(y: int, m: int, d: int): string {
    IntToString(y) + "-" + ZeroPad2(IntToString(m + 1)) + "-" + ZeroPad2(IntToString(d))
  }

  lemma DigitsValueFour(t: string)
    requires AllDigits(t) && |t| == 4
    ensures DigitsValue(t) == (t[0] as int - '0' as int) * 1000 + (t[1] as int - '0' as int) * 100
                             + (t[2] as int - '0' as int) * 10 + (t[3] as int - '0' as int)
  {
    assert t[..1][..0] == [] && t[..2][..1] == t[..1] && t[..3][..2] == t[..2] && t[..4] == t;
    assert DigitsValue(t[..1]) == t[0] as int - '0' as int;
    assert DigitsValue(t[..2]) == DigitsValue(t[..1]) * 10 + (t[1] as int - '0' as int);
    assert DigitsValue(t[..3]) == DigitsValue(t[..2]) * 10 + (t[2] as int - '0' as int);
  }

  lemma DigitsValueTwo(t: string)
    requires AllDigits(t) && |t| == 2
    ensures DigitsValue(t) == (t[0] as int - '0' as int) * 10 + (t[1] as int - '0' as int)
  {
    assert t[..1][..0] == [] && t[..2] == t;
    assert DigitsValue(t[..1]) == t[0] as int - '0' as int;
  }

  /** A parsed date with a four-digit year prints back to the pieces of its string. */
  lemma ParsedPieces(s: string)
    requires ParseIsoDate(s).Some? && ParseIsoDate(s).value.year >= 1000
    ensures var d := ParseIsoDate(s).value;
      && IntToString(d.year) == s[..4]
      && ZeroPad2(IntToString(d.month + 1)) == s[5..7]
      && ZeroPad2(IntToString(d.day)) == s[8..]
  {
    ParsedFields(s);
    var d := ParseIsoDate(s).value;
    var ys, ms, ds := s[..4], s[5..7], s[8..];
    assert d.year == DigitsValue(ys) && d.month + 1 == DigitsValue(ms) && d.day == DigitsValue(ds);
    YearDigitsRoundTrip(ys);
    TwoDigitsRoundTrip(ms);
    assert IntToString(d.month + 1) == NatToString(DigitsValue(ms));
    TwoDigitsRoundTrip(ds);
    assert IntToString(d.day) == NatToString(DigitsValue(ds));
  }

  lemma YearDigitsRoundTrip(t: string)
    requires AllDigits(t) && |t| == 4 && DigitsValue(t) >= 1000
    ensures IntToString(DigitsValue(t)) == t
  {
    DigitsValueFour(t);
    NatToStringOfDigits(t);
  }

  lemma ParsedFields(s: string)
    requires ParseIsoDate(s).Some?
    ensures IsoShaped(s)
    ensures ParseIsoDate(s).value == Date(DigitsValue(s[..4]), DigitsValue(s[5..7]) - 1, DigitsValue(s[8..]))
  {
  }

  /** A date string that parses (with a four-digit year) is exactly the day key
      of the date it denotes. */
  lemma DayKeyOfParsed(s: string)
    requires ParseIsoDate(s).Some? && ParseIsoDate(s).value.year >= 1000
    ensures var d := ParseIsoDate(s).value; DayKey(d.year, d.month, d.day) == s
  {
    ParsedPieces(s);
    var d := ParseIsoDate(s).value;
    KeyFromPieces(d.year, d.month, d.day, s);
  }

  lemma KeyFromPieces(y: int, m: int, d: int, s: string)
    requires |s| == 10 && s[4] == '-' && s[7] == '-'
    requires IntToString(y) == s[..4] && ZeroPad2(IntToString(m + 1)) == s[5..7] && ZeroPad2(IntToString(d)) == s[8..]
    ensures DayKey(y, m, d) == s
  {
    Reassemble(s);
  }

  lemma Reassemble(s: string)
    requires |s| == 10 && s[4] == '-' && s[7] == '-'
    ensures s[..4] + "-" + s[5..7] + "-" + s[8..] == s
  {
    assert s == s[..4] + [s[4]] + s[5..7] + [s[7]] + s[8..];
  }

  lemma DigitsOfPadded(n: nat)
    requires n < 100
    ensures var t := ZeroPad2(IntToString(n)); |t| == 2 && AllDigits(t) && DigitsValue(t) == n
  {
    NatToStringLength(n);
    var t := ZeroPad2(NatToString(n));
    DigitsValueTwo(t);
    if n >= 10 {
      DigitsValueTwo(NatToString(n));
    }
  }

  lemma DigitsOfYear(y: int)
    requires 1000 <= y <= 9999
    ensures var t := IntToString(y); |t| == 4 && AllDigits(t) && DigitsValue(t) == y
  {
    NatToStringLength(y);
  }

  /** The day key of a real day with a four-digit year parses back to that day. */
  lemma ParseDayKey(d: Date)
    requires ValidDate(d) && 1000 <= d.year <= 9999
    ensures ParseIsoDate(DayKey(d.year, d.month, d.day)) == Some(d)
  {
    DayKeyShape(d, DayKey(d.year, d.month, d.day));
    ParseShaped(DayKey(d.year, d.month, d.day), d);
  }

  lemma DayKeyShape(d: Date, s: string)
    requires ValidDate(d) && 1000 <= d.year <= 9999
    requires s == DayKey(d.year, d.month, d.day)
    ensures IsoShaped(s)
    ensures DigitsValue(s[..4]) == d.year && DigitsValue(s[5..7]) == d.month + 1 && DigitsValue(s[8..]) == d.day
  {
    DigitsOfYear(d.year);
    DigitsOfPadded(d.month + 1);
    DigitsOfPadded(d.day);
    KeyShape(IntToString(d.year), ZeroPad2(IntToString(d.month + 1)), ZeroPad2(IntToString(d.day)), s);
  }

  lemma KeyShape(ys: string, ms: string, ds: string, s: string)
    requires |ys| == 4 && |ms| == 2 && |ds| == 2
    requires AllDigits(ys) && AllDigits(ms) && AllDigits(ds)
    requires s == ys + "-" + ms + "-" + ds
    ensures IsoShaped(s) && s[..4] == ys && s[5..7] == ms && s[8..] == ds
    ensures DigitsValue(s[..4]) == DigitsValue(ys) && DigitsValue(s[5..7]) == DigitsValue(ms)
    ensures DigitsValue(s[8..]) == DigitsValue(ds)
  {
    assert s[..4] == ys && s[5..7] == ms && s[8..] == ds;
  }

  lemma ParseShaped(s: string, d: Date)
    requires IsoShaped(s) && ValidDate(d)
    requires DigitsValue(s[..4]) == d.year && DigitsValue(s[5..7]) == d.month + 1 && DigitsValue(s[8..]) == d.day
    ensures ParseIsoDate(s) == Some(d)
  {
  }

  /** For four-digit years, day keys are equal exactly when the days are. */
  lemma DayKeyInjective(a: Date, b: Date)
    requires ValidDate(a) && 1000 <= a.year <= 9999
    requires ValidDate(b) && 1000 <= b.year <= 9999
    ensures DayKey(a.year, a.month, a.day) == DayKey(b.year, b.month, b.day) <==> a == b
  {
    ParseDayKey(a);
    ParseDayKey(b);
  }
}
