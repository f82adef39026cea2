/** The month-grid view of the calendar page: the (month, year) cursor moved
    by the previous/next buttons, and the cells `renderCalendarView` lays out
    (`assets/js/calendar.js`). */
module MonthGrid {
  import opened Wrappers
  import opened Text
  import opened Dates
  import opened Events

  /** The calendar cursor; `month` is zero-based. */
  datatype Cursor = Cursor(month: int, year: int)

  predicate ValidCursor(c: Cursor) {
    0 <= c.month < 12
  }

  /** Months since January of year 0: the cursor as one number. */
  function MonthIndex(c: Cursor): int {
    c.year * 12 + c.month
  }

  const InitialYear: int := 2025

  /** The cursor at page load: the clock's current month, year fixed at 2025. */
  function InitialCursor(nowMonth: int): (c: Cursor)
    requires 0 <= nowMonth < 12
    ensures ValidCursor(c) && c.month == nowMonth && c.year == InitialYear
  {
    Cursor(nowMonth, InitialYear)
  }

  /** The "next month" button: one month later, wrapping December to January
      of the following year. */
  function NextMonth(c: Cursor): (r: Cursor)
    ensures ValidCursor(c) ==> ValidCursor(r) && MonthIndex(r) == MonthIndex(c) + 1
    ensures r.year != c.year <==> c.month >= 11
  {
    if c.month + 1 > 11 then Cursor(0, c.year + 1) else Cursor(c.month + 1, c.year)
  }

  /** The "previous month" button: one month earlier, wrapping January to
      December of the preceding year. */
  function PrevMonth(c: Cursor): (r: Cursor)
    ensures ValidCursor(c) ==> ValidCursor(r) && MonthIndex(r) == MonthIndex(c) - 1
    ensures r.year != c.year <==> c.month <= 0
  {
    if c.month - 1 < 0 then Cursor(11, c.year - 1) else Cursor(c.month - 1, c.year)
  }

  /** A valid cursor is determined by its month index. */
  lemma MonthIndexInjective(a: Cursor, b: Cursor)
    requires ValidCursor(a) && ValidCursor(b) && MonthIndex(a) == MonthIndex(b)
    ensures a == b
  {
  }

  /** Next and previous undo each other. */
  lemma NextPrevInverse(c: Cursor)
    requires ValidCursor(c)
    ensures PrevMonth(NextMonth(c)) == c
    ensures NextMonth(PrevMonth(c)) == c
  {
    MonthIndexInjective(PrevMonth(NextMonth(c)), c);
    MonthIndexInjective(NextMonth(PrevMonth(c)), c);
  }

  function NextMonths(c: Cursor, k: nat): Cursor {
    if k == 0 then c else NextMonth(NextMonths(c, k - 1))
  }

  lemma {:induction false} NextMonthsIndex(c: Cursor, k: nat)
    requires ValidCursor(c)
    ensures ValidCursor(NextMonths(c, k)) && MonthIndex(NextMonths(c, k)) == MonthIndex(c) + k
  {
    if k > 0 {
      NextMonthsIndex(c, k - 1);
    }
  }

  /** Twelve clicks on "next" reach the same month of the following year. */
  lemma TwelveNextsIsAYear(c: Cursor)
    requires ValidCursor(c)
    ensures NextMonths(c, 12) == Cursor(c.month, c.year + 1)
  {
    NextMonthsIndex(c, 12);
    MonthIndexInjective(NextMonths(c, 12), Cursor(c.month, c.year + 1));
  }

  /** The heading `${getMonthName(currentMonth)} ${currentYear}`. */
  function MonthTitle(c: Cursor): (t: string)
    ensures ValidCursor(c) ==> t == MonthName(c.month).value + " " + IntToString(c.year)
  {
    MonthName(c.month).GetOr("undefined") + " " + IntToString(c.year)
  }

  // ---------------------------------------------------------------------------
  // Grid layout.
  // ---------------------------------------------------------------------------

  /** `new Date(y, m, d)` reads a year 0..99 as 1900..1999. */
  function ConstructorYear(y: int): (r: int)
    ensures r == y <==> !(0 <= y <= 99)
    ensures r != y ==> 1900 <= r <= 1999 && r % 100 == y
  {
    if 0 <= y <= 99 then 1900 + y else y
  }

  /** Weekday of the 1st (`new Date(y, m, 1).getDay()`), days in the month
      (`new Date(y, m + 1, 0).getDate()`) and days in the month before
      (`new Date(y, m, 0).getDate()`). */
  datatype Layout = Layout(firstDay: int, daysInMonth: int, daysInPrevMonth: int)

  function LayoutOf(c: Cursor): (l: Layout)
    requires ValidCursor(c)
    ensures 0 <= l.firstDay < 7
    ensures 28 <= l.daysInMonth <= 31 && 28 <= l.daysInPrevMonth <= 31
  {
    var y := ConstructorYear(c.year);
    Layout(
      Weekday(Date(y, c.month, 1)),
      DaysInMonth(y, c.month),
      if c.month == 0 then DaysInMonth(y - 1, 11) else DaysInMonth(y, c.month - 1))
  }

  /** Cells after the last day: `Math.ceil(used / 7) * 7 - used`. */
  function TrailingCount(used: nat): (n: int)
    ensures 0 <= n < 7 && (used + n) % 7 == 0
  {
    ((used + 6) / 7) * 7 - used
  }

  datatype CellKind =
    | PrevMonthDay
    | CurrentDay(key: string, hasEvent: bool)
    | NextMonthDay

  /** One `calendar-day` cell: the number it shows and its kind. */
  datatype Cell = Cell(day: int, kind: CellKind)

  /** The cell of day `d` of the cursor's month: `data-date` is the zero-padded
      day key, tagged `has-event` when a filtered event carries that date. */
  function CurrentCell(c: Cursor, d: int, filtered: seq<Event>): Cell {
    var key := DayKey(c.year, c.month, d);
    Cell(d, CurrentDay(key, HasEventOn(filtered, key)))
  }

  /** The day cells of the cursor's month, as a function of the day. */
  function CellsOf(c: Cursor, filtered: seq<Event>): (int -> Cell) {
    d => CurrentCell(c, d, filtered)
  }

  /** A grid of whole weeks for a month whose 1st falls on weekday `first`, with
      `dim` days after a month of `dpm` days: the previous month's last days,
      one cell per day made by `cellOf`, then the next month's first days. */
  predicate WholeWeeks(cells: seq<Cell>, first: int, dim: int, dpm: int, cellOf: int -> Cell) {
    && |cells| % 7 == 0
    && 0 <= first && 0 <= dim && first + dim <= |cells| < first + dim + 7
    && (forall k :: 0 <= k < first ==> cells[k] == Cell(dpm - first + 1 + k, PrevMonthDay))
    && (forall d :: 1 <= d <= dim ==> cells[first + d - 1] == cellOf(d))
    && (forall k :: first + dim <= k < |cells| ==> cells[k] == Cell(k - first - dim + 1, NextMonthDay))
  }

  /** `renderCalendarView`: leading cells for the previous month's last days,
      one cell per day of the month, then trailing cells up to a whole week. */
  method RenderMonthGrid(c: Cursor, filtered: seq<Event>) returns (cells: seq<Cell>)
    requires ValidCursor(c)
    ensures var l := LayoutOf(c);
      WholeWeeks(cells, l.firstDay, l.daysInMonth, l.daysInPrevMonth, CellsOf(c, filtered))
  {
    var l := LayoutOf(c);
    cells := LayCells(l.firstDay, l.daysInMonth, l.daysInPrevMonth, CellsOf(c, filtered));
  }

  /** The three loops of `renderCalendarView` for a given layout. */
  method LayCells(first: nat, dim: nat, dpm: int, cellOf: int -> Cell) returns (cells: seq<Cell>)
    ensures WholeWeeks(cells, first, dim, dpm, cellOf)
  {
    var lead := LeadingCells(first, dpm);
    var month := MonthCells(dim, cellOf);
    var trail := TrailingCells(TrailingCount(first + dim));
    cells := lead + month + trail;
    assert forall k :: 0 <= k < first ==> cells[k] == lead[k];
    assert forall k :: first <= k < first + dim ==> cells[k] == month[k - first];
    assert forall k :: first + dim <= k < |cells| ==> cells[k] == trail[k - first - dim];
  }

  /** Previous-month days `dpm - first + 1 .. dpm`, ascending. */
  method LeadingCells(first: nat, dpm: int) returns (cells: seq<Cell>)
    ensures |cells| == first
    ensures forall k :: 0 <= k < first ==> cells[k] == Cell(dpm - first + 1 + k, PrevMonthDay)
  {
    cells := [];
    var i := first - 1;
    while i >= 0
      invariant -1 <= i < first
      invariant |cells| == first - 1 - i
      invariant forall k :: 0 <= k < |cells| ==> cells[k] == Cell(dpm - first + 1 + k, PrevMonthDay)
    {
      cells := cells + [Cell(dpm - i, PrevMonthDay)];
      i := i - 1;
    }
  }

  /** Days `1 .. dim` of the cursor's month, each cell made by `cellOf`. */
  method MonthCells(dim: nat, cellOf: int -> Cell) returns (cells: seq<Cell>)
    ensures |cells| == dim
    ensures forall d :: 1 <= d <= dim ==> cells[d - 1] == cellOf(d)
  {
    cells := [];
    var day := 1;
    while day <= dim
      invariant 1 <= day <= dim + 1
      invariant |cells| == day - 1
      invariant forall d :: 1 <= d < day ==> cells[d - 1] == cellOf(d)
    {
      cells := cells + [cellOf(day)];
      day := day + 1;
    }
  }

  /** Next-month days `1 .. n`. */
  method TrailingCells(n: nat) returns (cells: seq<Cell>)
    ensures |cells| == n
    ensures forall k :: 0 <= k < n ==> cells[k] == Cell(k + 1, NextMonthDay)
  {
    cells := [];
    var day := 1;
    while day <= n
      invariant 1 <= day <= n + 1
      invariant |cells| == day - 1
      invariant forall k :: 0 <= k < |cells| ==> cells[k] == Cell(k + 1, NextMonthDay)
    {
      cells := cells + [Cell(day, NextMonthDay)];
      day := day + 1;
    }
  }

  /** A cell is tagged `has-event` exactly when clicking it lists events. */
  lemma HasEventCellsOpenDayList(c: Cursor, d: int, filtered: seq<Event>)
    ensures CurrentCell(c, d, filtered).kind.hasEvent
            <==> ShowDayEvents(filtered, DayKey(c.year, c.month, d)).Some?
  {
  }

  /** For a day with a four-digit year, the `has-event` tag is a date match:
      it holds exactly when a filtered event's date parses to that very day. */
  lemma HasEventMeansSameDay(c: Cursor, d: int, filtered: seq<Event>)
    requires ValidCursor(c) && 1000 <= c.year <= 9999 && 1 <= d <= DaysInMonth(c.year, c.month)
    ensures CurrentCell(c, d, filtered).kind.hasEvent
            <==> exists i :: 0 <= i < |filtered| && ParseIsoDate(filtered[i].date) == Some(Date(c.year, c.month, d))
  {
    var key := DayKey(c.year, c.month, d);
    ParseDayKey(Date(c.year, c.month, d));
    forall i | 0 <= i < |filtered| && ParseIsoDate(filtered[i].date) == Some(Date(c.year, c.month, d))
      ensures filtered[i].date == key
    {
      DayKeyOfParsed(filtered[i].date);
    }
  }

  /** Grids of consecutive months tile the weeks: the trailing cells of one
      month and the leading cells of the next make up nothing or one full
      week. (Years 0..99 are read as 1900..1999 by the Date constructor, so the
      step from year 99 to 100 is excluded.) */
  lemma ConsecutiveGridsTile(c: Cursor)
    requires ValidCursor(c) && c.year >= 100
    ensures var l, n := LayoutOf(c), LayoutOf(NextMonth(c));
      var t := TrailingCount(l.firstDay + l.daysInMonth);
      (t == 0 <==> n.firstDay == 0) && (t != 0 ==> t + n.firstDay == 7)
  {
    var y := ConstructorYear(c.year);
    NextFirstWeekday(y, c.month);
    var l := LayoutOf(c);
    assert l.firstDay == Weekday(Date(y, c.month, 1)) && l.daysInMonth == DaysInMonth(y, c.month);
    assert LayoutOf(NextMonth(c)).firstDay == (l.firstDay + l.daysInMonth) % 7;
    TrailingMod(l.firstDay + l.daysInMonth);
  }

  lemma TrailingMod(u: nat)
    ensures TrailingCount(u) == 0 <==> u % 7 == 0
    ensures TrailingCount(u) != 0 ==> TrailingCount(u) + u % 7 == 7
  {
    var q, r := u / 7, u % 7;
    if r == 0 {
      DivModUnique(u + 6, 7, q, 6);
    } else {
      DivModUnique(u + 6, 7, q + 1, r - 1);
    }
  }

  /** February 2024 has 29 current-month cells behind four leading cells
      (1 February 2024 was a Thursday). */
  lemma February2024Layout()
    ensures LayoutOf(Cursor(1, 2024)) == Layout(4, 29, 31)
  {
    CalendarAnchors();
  }
}
