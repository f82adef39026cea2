/** The event records of the calendar page: loading the two lists, the
    type/month filter, day matching for the month grid, and the list view's
    date ordering (`assets/js/calendar.js`). */
module Events {
  import opened Wrappers
  import opened Text
  import opened Dates

  /** One calendar entry as the JSON lists hold it. `date` is kept as the raw
      text: day matching compares it as a string, while month filtering,
      ordering and export read it through `ParseIsoDate`. */
  datatype Event = Event(
    date: string,
    title: string,
    category: string,
    fast: Option<string>,
    description: Option<string>)

  /** JavaScript truthiness of an optional text field: present and non-empty. */
  predicate Present(o: Option<string>) {
    o.Some? && o.value != ""
  }

  // ---------------------------------------------------------------------------
  // Order-preserving selection.
  // ---------------------------------------------------------------------------

  /** `s.filter(keep)`. */
  function Keep(s: seq<Event>, keep: Event -> bool): (r: seq<Event>)
    ensures |r| <= |s|
    ensures forall e :: multiset(r)[e] == if keep(e) then multiset(s)[e] else 0
  {
    if s == [] then []
    else
      var rest := Keep(s[1..], keep);
      assert s == [s[0]] + s[1..];
      if keep(s[0]) then [s[0]] + rest else rest
  }

  lemma {:induction false} KeepConcat(a: seq<Event>, b: seq<Event>, keep: Event -> bool)
    ensures Keep(a + b, keep) == Keep(a, keep) + Keep(b, keep)
  {
    if a == [] {
      assert a + b == b;
    } else {
      assert (a + b)[0] == a[0];
      assert (a + b)[1..] == a[1..] + b;
      KeepConcat(a[1..], b, keep);
    }
  }

  /** Two selections in a row select what both keep. */
  lemma {:induction false} KeepKeep(s: seq<Event>, p: Event -> bool, q: Event -> bool, both: Event -> bool)
    requires forall e :: both(e) == (p(e) && q(e))
    ensures Keep(Keep(s, p), q) == Keep(s, both)
  {
    if s != [] {
      KeepKeep(s[1..], p, q, both);
      var rest := Keep(s[1..], p);
      if p(s[0]) {
        assert Keep(s, p) == [s[0]] + rest;
        assert ([s[0]] + rest)[0] == s[0] && ([s[0]] + rest)[1..] == rest;
      }
    }
  }

  // ---------------------------------------------------------------------------
  // Loading.
  // ---------------------------------------------------------------------------

  /** The module's event arrays after `loadEvents`. */
  datatype EventStore = EventStore(all: seq<Event>, filtered: seq<Event>)

  /** `loadEvents`: the primary list is required (a failed fetch leaves both
      arrays empty); a failed supplementary fetch counts as an empty list. The
      full set is the two lists concatenated, with no de-duplication, and the
      filtered set starts as a copy of it. */
  function LoadEvents(primary: Option<seq<Event>>, local: Option<seq<Event>>): (s: EventStore)
    ensures primary.None? ==> s.all == [] && s.filtered == []
    ensures primary.Some? ==> |s.all| == |primary.value| + (if local.Some? then |local.value| else 0)
    ensures primary.Some? ==> s.all[..|primary.value|] == primary.value
    ensures primary.Some? && local.Some? ==> s.all[|primary.value|..] == local.value
    ensures s.filtered == s.all
  {
    match primary
    case None => EventStore([], [])
    case Some(p) =>
      var all := p + local.GetOr([]);
      EventStore(all, all)
  }

  // ---------------------------------------------------------------------------
  // Filtering.
  // ---------------------------------------------------------------------------

  /** The type selector: every category, or one. */
  datatype TypeChoice = AnyType | OfType(category: string)

  /** The month selector: every month, the number `parseInt` read from the
      control (compared with the zero-based month), or NaN, which no month
      equals. */
  datatype MonthChoice = AnyMonth | InMonth(month: int) | NotANumber

  /** `typeFilter?.value || 'all'`, compared against `'all'`; `None` is a
      missing control. */
  function TypeChoiceOf(control: Option<string>): (c: TypeChoice)
    ensures c.AnyType? <==> control.None? || control.value == "" || control.value == "all"
    ensures c.OfType? ==> c.category == control.value
  {
    if control.None? || control.value == "" || control.value == "all" then AnyType
    else OfType(control.value)
  }

  /** `monthFilter?.value || 'all'`, compared against `'all'`, then
      `parseInt` of the value. */
  function MonthChoiceOf(control: Option<string>): (c: MonthChoice)
    ensures c.AnyMonth? <==> control.None? || control.value == "" || control.value == "all"
    ensures !c.AnyMonth? ==> (c.NotANumber? <==> ParseInt(control.value).None?)
    ensures c.InMonth? ==> Some(c.month) == ParseInt(control.value)
    ensures control.Some? && |control.value| > 0 && AllDigits(control.value) ==>
              c == InMonth(DigitsValue(control.value))
  {
    if control.None? || control.value == "" || control.value == "all" then AnyMonth
    else
      match ParseInt(control.value)
      case None => NotANumber
      case Some(m) => InMonth(m)
  }

  /** A control whose value is a printed month number selects that month. */
  lemma MonthChoiceOfPrinted(m: int)
    ensures MonthChoiceOf(Some(IntToString(m))) == InMonth(m)
  {
    ParseIntOfIntToString(m);
    assert IntToString(m) != "all" by {
      assert "all"[0] == 'a';
    }
  }

  /** A value other than `all` selects what `parseInt` reads from it. */
  lemma MonthChoiceOfValue(v: string, m: Option<int>)
    requires v != "all" && v != "" && ParseInt(v) == m
    ensures MonthChoiceOf(Some(v)) == if m.Some? then InMonth(m.value) else NotANumber
  {
  }

  /** Values other than plain digits, as `parseInt` reads them: white space
      and a sign are skipped, and `-0` is January. */
  lemma MonthChoiceSignExamples()
    ensures MonthChoiceOf(Some(" 3")) == InMonth(3) && MonthChoiceOf(Some("+3")) == InMonth(3)
    ensures MonthChoiceOf(Some("-0")) == InMonth(0)
  {
    ParseIntSignExamples();
    MonthChoiceOfValue(" 3", Some(3));
    MonthChoiceOfValue("+3", Some(3));
    MonthChoiceOfValue("-0", Some(0));
  }

  /** A `0x` prefix is hexadecimal, and a value without digits is NaN. */
  lemma MonthChoicePrefixExamples()
    ensures MonthChoiceOf(Some("0x0A")) == InMonth(10)
    ensures MonthChoiceOf(Some("x")) == NotANumber
  {
    ParseIntHexExample();
    MonthChoiceOfValue("0x0A", Some(10));
    ParseIntNaNLetter();
    MonthChoiceOfValue("x", None);
  }

  /** A three-character value other than `all` is read like any other:
      `011` is December. */
  lemma MonthChoiceLeadingZeroExample()
    ensures MonthChoiceOf(Some("011")) == InMonth(11)
  {
    assert ParseInt("011") == Some(11) by {
      assert "011"[..2] == "01" && "01"[..1] == "0" && "0"[..0] == [];
      assert AllDigits("011") && DigitsValue("011") == 11;
    }
    MonthChoiceOfValue("011", Some(11));
  }

  predicate TypeMatches(e: Event, c: TypeChoice) {
    c.AnyType? || e.category == c.category
  }

  /** `eventDate.getMonth() === parseInt(selectedMonth)`; an unparseable date
      has NaN for a month and matches no month. */
  predicate MonthMatches(e: Event, c: MonthChoice): (b: bool)
    ensures b && c.InMonth? ==> 0 <= c.month < 12
    ensures b && c.InMonth? ==> IsoShaped(e.date) && DigitsValue(e.date[5..7]) == c.month + 1
  {
    match c
    case AnyMonth => true
    case NotANumber => false
    case InMonth(m) =>
      var p := ParseIsoDate(e.date);
      if p.Some? then ParsedFields(e.date); p.value.month == m else false
  }

  predicate Matches(e: Event, tc: TypeChoice, mc: MonthChoice) {
    TypeMatches(e, tc) && MonthMatches(e, mc)
  }

  /** `applyFilters`: the events of `all` that pass both selectors, in their
      original order, each as often as it occurs in `all`. */
  function ApplyFilters(all: seq<Event>, tc: TypeChoice, mc: MonthChoice): (r: seq<Event>)
    ensures |r| <= |all|
    ensures forall e :: multiset(r)[e] == if Matches(e, tc, mc) then multiset(all)[e] else 0
    ensures forall e :: e in r <==> e in all && Matches(e, tc, mc)
  {
    var r := Keep(all, e => Matches(e, tc, mc));
    assert forall e :: e in r <==> multiset(r)[e] > 0;
    r
  }

  /** Selecting "all" for both controls keeps every event, in order. */
  lemma {:induction false} FilterAllIsIdentity(all: seq<Event>)
    ensures ApplyFilters(all, AnyType, AnyMonth) == all
  {
    if all != [] {
      FilterAllIsIdentity(all[1..]);
      assert all == [all[0]] + all[1..];
    }
  }

  /** The store after loading shows every event: its filtered set is what
      "all"/"all" selects. */
  lemma LoadedStoreUnfiltered(primary: Option<seq<Event>>, local: Option<seq<Event>>)
    ensures var s := LoadEvents(primary, local); s.filtered == ApplyFilters(s.all, AnyType, AnyMonth)
  {
    FilterAllIsIdentity(LoadEvents(primary, local).all);
  }

  /** Filtering the merged list is filtering each source list and merging. */
  lemma FilterMerged(primary: seq<Event>, local: seq<Event>, tc: TypeChoice, mc: MonthChoice)
    ensures ApplyFilters(primary + local, tc, mc) == ApplyFilters(primary, tc, mc) + ApplyFilters(local, tc, mc)
  {
    KeepConcat(primary, local, e => Matches(e, tc, mc));
  }

  /** Re-applying the same selection changes nothing. */
  lemma FilterIdempotent(all: seq<Event>, tc: TypeChoice, mc: MonthChoice)
    ensures ApplyFilters(ApplyFilters(all, tc, mc), tc, mc) == ApplyFilters(all, tc, mc)
  {
    var m := e => Matches(e, tc, mc);
    KeepKeep(all, m, m, m);
  }

  /** The two selectors are independent axes: filtering by type alone, then by
      month alone, is the combined filter. */
  lemma FilterComposes(all: seq<Event>, tc: TypeChoice, mc: MonthChoice)
    ensures ApplyFilters(ApplyFilters(all, tc, AnyMonth), AnyType, mc) == ApplyFilters(all, tc, mc)
  {
    KeepKeep(all, e => Matches(e, tc, AnyMonth), e => Matches(e, AnyType, mc), e => Matches(e, tc, mc));
  }

  /** The worked example: a feast on 7 January and a fast on 15 March, filtered
      to feasts in any month, leaves the feast alone. */
  lemma FeastExample()
    ensures var feast := Event("2025-01-07", "Sf. Ioan", "feast", None, None);
      var fastDay := Event("2025-03-15", "Post", "fast", None, None);
      ApplyFilters([feast, fastDay], OfType("feast"), AnyMonth) == [feast]
  {
    var feast := Event("2025-01-07", "Sf. Ioan", "feast", None, None);
    var fastDay := Event("2025-03-15", "Post", "fast", None, None);
    assert [feast, fastDay][1..] == [fastDay];
  }

  // ---------------------------------------------------------------------------
  // Day matching (month grid cells and `showDayEvents`).
  // ---------------------------------------------------------------------------

  /** Some filtered event's date string is exactly `key`. */
  predicate HasEventOn(filtered: seq<Event>, key: string) {
    exists i :: 0 <= i < |filtered| && filtered[i].date == key
  }

  /** `showDayEvents`: the filtered events dated exactly `key`, in order, or
      nothing at all (no message) when there are none. */
  function ShowDayEvents(filtered: seq<Event>, key: string): (r: Option<seq<Event>>)
    ensures r.None? <==> !HasEventOn(filtered, key)
    ensures r.Some? ==> |r.value| > 0
    ensures r.Some? ==> forall e :: multiset(r.value)[e] == if e.date == key then multiset(filtered)[e] else 0
  {
    var day := Keep(filtered, DatedOn(key));
    if |day| == 0 then
      assert forall i :: 0 <= i < |filtered| ==> multiset(day)[filtered[i]] == 0;
      None
    else
      assert day[0] in multiset(day);
      Some(day)
  }

  /** The test `e => e.date === date` of `showDayEvents`. */
  function DatedOn(key: string): Event -> bool {
    (e: Event) => e.date == key
  }

  /** The day list keeps the filtered order: the list for two runs of events
      is the list for the first run followed by the list for the second. */
  lemma ShowDayEventsInOrder(a: seq<Event>, b: seq<Event>, key: string)
    ensures ShowDayEvents(a + b, key).GetOr([]) == ShowDayEvents(a, key).GetOr([]) + ShowDayEvents(b, key).GetOr([])
  {
    KeepConcat(a, b, DatedOn(key));
  }

  /** A single event is listed exactly when it carries that date. */
  lemma ShowDayEventsOne(e: Event, key: string)
    ensures ShowDayEvents([e], key) == if e.date == key then Some([e]) else None
  {
    assert Keep([e], DatedOn(key)) == if e.date == key then [e] else [] by {
      assert [e][1..] == [];
      assert DatedOn(key)(e) == (e.date == key);
      assert Keep([], DatedOn(key)) == [];
    }
  }

  // ---------------------------------------------------------------------------
  // List view ordering.
  // ---------------------------------------------------------------------------

  /** The list view's comparator `new Date(a.date) - new Date(b.date) <= 0`,
      comparing day numbers; an unparseable date sorts after every valid one. */
  predicate NotAfter(a: Event, b: Event): (r: bool)
    ensures var pa, pb := ParseIsoDate(a.date), ParseIsoDate(b.date);
      pa.Some? && pb.Some? ==> (r <==> NotLater(pa.value, pb.value))
  {
    var pa, pb := ParseIsoDate(a.date), ParseIsoDate(b.date);
    if pa.Some? && pb.Some? then
      DayNumberOrder(pa.value, pb.value);
      DayNumber(pa.value) <= DayNumber(pb.value)
    else
      pb.None?
  }

  lemma NotAfterTotal(a: Event, b: Event)
    ensures NotAfter(a, b) || NotAfter(b, a)
  {
  }

  lemma NotAfterTransitive(a: Event, b: Event, c: Event)
    requires NotAfter(a, b) && NotAfter(b, c)
    ensures NotAfter(a, c)
  {
  }

  predicate SortedByDate(s: seq<Event>) {
    forall i, j :: 0 <= i < j < |s| ==> NotAfter(s[i], s[j])
  }

  /** An event that is not after any element of a sorted list can head it. */
  lemma ConsSorted(h: Event, rest: seq<Event>)
    requires SortedByDate(rest)
    requires forall k :: 0 <= k < |rest| ==> NotAfter(h, rest[k])
    ensures SortedByDate([h] + rest)
  {
    var r := [h] + rest;
    forall i, j | 0 <= i < j < |r| ensures NotAfter(r[i], r[j]) {
      assert r[j] == rest[j - 1];
      if i > 0 { assert r[i] == rest[i - 1]; }
    }
  }

  /** Places `x` before the first element it is not after. */
  function InsertByDate(x: Event, s: seq<Event>): (r: seq<Event>)
    requires SortedByDate(s)
    ensures SortedByDate(r)
    ensures multiset(r) == multiset(s) + multiset{x}
  {
    if s == [] then [x]
    else if NotAfter(x, s[0]) then
      forall j | 0 <= j < |s| ensures NotAfter(x, s[j]) {
        if j > 0 { NotAfterTransitive(x, s[0], s[j]); }
      }
      ConsSorted(x, s);
      [x] + s
    else
      var rest := InsertByDate(x, s[1..]);
      assert s == [s[0]] + s[1..];
      HeadBeforeInserted(x, s, rest);
      [s[0]] + rest
  }

  /** When `x` goes after the head, the head still leads. */
  lemma HeadBeforeInserted(x: Event, s: seq<Event>, rest: seq<Event>)
    requires SortedByDate(s) && s != [] && !NotAfter(x, s[0])
    requires SortedByDate(rest) && multiset(rest) == multiset(s[1..]) + multiset{x}
    ensures SortedByDate([s[0]] + rest)
  {
    NotAfterTotal(x, s[0]);
    forall k | 0 <= k < |rest| ensures NotAfter(s[0], rest[k]) {
      assert rest[k] in multiset(rest);
      if rest[k] != x {
        assert rest[k] in multiset(s[1..]);
        var j :| 0 <= j < |s[1..]| && s[1..][j] == rest[k];
        assert s[j + 1] == rest[k];
      }
    }
    ConsSorted(s[0], rest);
  }

  /** The list view's `sort`: a rearrangement of the filtered events in
      non-decreasing date order. */
  function SortByDate(s: seq<Event>): (r: seq<Event>)
    ensures SortedByDate(r)
    ensures multiset(r) == multiset(s)
    ensures |r| == |s|
  {
    if s == [] then []
    else
      assert s == [s[0]] + s[1..];
      InsertByDate(s[0], SortByDate(s[1..]))
  }

  // ---------------------------------------------------------------------------
  // Month names and the list view.
  // ---------------------------------------------------------------------------

  /** `getMonthName`: `months[m]`, undefined outside 0..11. */
  function MonthName(m: int): (r: Option<string>)
    ensures r.Some? <==> 0 <= m < 12
    ensures r.Some? ==> |r.value| >= 3 && 'A' <= r.value[0] <= 'Z'
  {
    if 0 <= m < 12 then
      Some(["Ianuarie", "Februarie", "Martie", "Aprilie", "Mai", "Iunie",
            "Iulie", "August", "Septembrie", "Octombrie", "Noiembrie", "Decembrie"][m])
    else None
  }

  /** `getMonthNameShort`. */
  function MonthNameShort(m: int): (r: Option<string>)
    ensures r.Some? <==> 0 <= m < 12
    ensures r.Some? ==> |r.value| == 3 && forall i :: 0 <= i < 3 ==> 'A' <= r.value[i] <= 'Z'
  {
    if 0 <= m < 12 then
      Some(["IAN", "FEB", "MAR", "APR", "MAI", "IUN", "IUL", "AUG", "SEP", "OCT", "NOV", "DEC"][m])
    else None
  }

  /** The two tables agree: each short name is the first three letters of the
      full name, upper-cased, except November, whose short name "NOV" is not
      the prefix "NOI" of "Noiembrie". */
  lemma MonthTablesAgree(m: int)
    requires 0 <= m < 12
    ensures |MonthName(m).value| >= 3
    ensures m != 10 <==> MonthNameShort(m).value == ToUpperAscii(MonthName(m).value[..3])
  {
    var full := MonthName(m).value;
    var up := ToUpperAscii(full[..3]);
    assert up == [UpperAscii(full[0]), UpperAscii(full[1]), UpperAscii(full[2])];
    if m < 6 {
      if m == 0 {} else if m == 1 {} else if m == 2 {} else if m == 3 {} else if m == 4 {} else {}
    } else {
      if m == 6 {} else if m == 7 {} else if m == 8 {} else if m == 9 {} else if m == 10 {
        assert full == "Noiembrie" && full[2] == 'i';
        assert up[2] == UpperAscii('i') == 'I';
      } else {}
    }
  }

  lemma MonthNamesDistinct(m: int, n: int)
    requires 0 <= m < 12 && 0 <= n < 12 && m != n
    ensures MonthName(m) != MonthName(n) && MonthNameShort(m) != MonthNameShort(n)
  {
  }

  /** One timeline entry of the list view. An unparseable date shows NaN for
      the day and "undefined" for the month, as `getDate`/`months[NaN]` print. */
  datatype ListEntry = ListEntry(day: string, month: string, title: string, meta: string, description: Option<string>)

  datatype ListView = NoEvents(message: string) | Timeline(entries: seq<ListEntry>)

  const NoEventsMessage := "Nu există evenimente pentru filtrele selectate."

  /** The entry `renderListView` writes for one event: day of month, short
      month name, title, the type followed by " • fast" when a fast label is
      present, and the description when present. */
  function EntryOf(e: Event): (r: ListEntry)
    ensures r.title == e.title
    ensures r.description.Some? <==> Present(e.description)
    ensures ParseIsoDate(e.date).Some? ==>
              r.day == IntToString(ParseIsoDate(e.date).value.day)
              && r.month == MonthNameShort(ParseIsoDate(e.date).value.month).value
    ensures ParseIsoDate(e.date).None? ==> r.day == "NaN" && r.month == "undefined"
    ensures |r.meta| >= |e.category| && r.meta[..|e.category|] == e.category
    ensures |r.meta| == |e.category| <==> !Present(e.fast)
    ensures Present(e.fast) ==> r.meta[|e.category|..] == " • " + e.fast.value
    ensures r.description.Some? ==> r.description == e.description
  {
    var p := ParseIsoDate(e.date);
    var day := if p.Some? then IntToString(p.value.day) else "NaN";
    var month := if p.Some? then MonthNameShort(p.value.month).value else "undefined";
    var meta := e.category + (if Present(e.fast) then " • " + e.fast.value else "");
    ListEntry(day, month, e.title, meta, if Present(e.description) then e.description else None)
  }

  /** `renderListView`: the fallback message for an empty filtered set,
      otherwise one entry per filtered event in date order. */
  function RenderListView(filtered: seq<Event>): (v: ListView)
    ensures v.NoEvents? <==> |filtered| == 0
    ensures v.NoEvents? ==> v.message == NoEventsMessage
    ensures v.Timeline? ==> |v.entries| == |filtered|
    ensures v.Timeline? ==> forall i :: 0 <= i < |v.entries| ==> v.entries[i] == EntryOf(SortByDate(filtered)[i])
  {
    if |filtered| == 0 then NoEvents(NoEventsMessage)
    else
      var sorted := SortByDate(filtered);
      Timeline(seq(|sorted|, i requires 0 <= i < |sorted| => EntryOf(sorted[i])))
  }
}
