/** The calendar-file export of the filtered events (`exportToICS`,
    `formatDateForICS`, `escapeICS` in `assets/js/calendar.js`), following
    the iCalendar format of RFC 5545: TEXT escaping of section 3.3.11, DATE
    values of section 3.3.4 and VEVENT components of section 3.6.1. As the
    code writes it, lines end in a bare line feed (section 3.1 asks for CRLF)
    and long lines are not folded. */
module Ics {
  import opened Wrappers
  import opened Text
  import opened Dates
  import opened Events

  // ---------------------------------------------------------------------------
  // TEXT escaping (RFC 5545 section 3.3.11).
  // ---------------------------------------------------------------------------

  predicate IsSpecial(c: char) {
    c == '\\' || c == ';' || c == ',' || c == '\n'
  }

  function CountSpecial(s: string): nat {
    if s == [] then 0 else (if IsSpecial(s[0]) then 1 else 0) + CountSpecial(s[1..])
  }

  /** The escape of one character: a backslash before `\`, `;` and `,`, and a
      line feed written as the two characters `\n`. */
  function EscapeChar(c: char): string {
    if c == '\\' then "\\\\"
    else if c == ';' then "\\;"
    else if c == ',' then "\\,"
    else if c == '\n' then "\\n"
    else [c]
  }

  /** `escapeICS`, character by character. */
  function Escape(s: string): (r: string)
    ensures '\n' !in r
    ensures |r| == |s| + CountSpecial(s)
  {
    if s == [] then [] else EscapeChar(s[0]) + Escape(s[1..])
  }

  /** `str.replace(/c/g, rep)`. */
  function ReplaceAll(s: string, c: char, rep: string): string {
    if s == [] then [] else (if s[0] == c then rep else [s[0]]) + ReplaceAll(s[1..], c, rep)
  }

  /** `escapeICS` as written: four global replacements, backslash first. */
  function EscapeAsWritten(s: string): (r: string)
    ensures (forall i :: 0 <= i < |s| ==> !IsSpecial(s[i])) ==> r == s
  {
    var r := ReplaceAll(ReplaceAll(ReplaceAll(ReplaceAll(s, '\\', "\\\\"), ';', "\\;"), ',', "\\,"), '\n', "\\n");
    if forall i :: 0 <= i < |s| ==> !IsSpecial(s[i]) then
      ReplaceAllAbsent(s, '\\', "\\\\");
      ReplaceAllAbsent(s, ';', "\\;");
      ReplaceAllAbsent(s, ',', "\\,");
      ReplaceAllAbsent(s, '\n', "\\n");
      r
    else
      r
  }

  /** A replacement of a character the text does not hold changes nothing. */
  lemma {:induction false} ReplaceAllAbsent(s: string, c: char, rep: string)
    requires c !in s
    ensures ReplaceAll(s, c, rep) == s
  {
    if s != [] {
      ReplaceAllAbsent(s[1..], c, rep);
      assert s == [s[0]] + s[1..];
    }
  }

  lemma {:induction false} ReplaceAllConcat(a: string, b: string, c: char, rep: string)
    ensures ReplaceAll(a + b, c, rep) == ReplaceAll(a, c, rep) + ReplaceAll(b, c, rep)
  {
    if a == [] {
      assert a + b == b;
    } else {
      assert (a + b)[0] == a[0] && (a + b)[1..] == a[1..] + b;
      ReplaceAllConcat(a[1..], b, c, rep);
    }
  }

  /** The four passes of `escapeICS` never re-escape what an earlier pass
      inserted (backslash goes first), so they amount to escaping each
      character once. */
  lemma {:induction false} EscapeAsWrittenIsEscape(s: string)
    ensures EscapeAsWritten(s) == Escape(s)
  {
    if s != [] {
      var x, rest := [s[0]], s[1..];
      assert s == x + rest;
      ReplaceAllConcat(x, rest, '\\', "\\\\");
      var a1, b1 := ReplaceAll(x, '\\', "\\\\"), ReplaceAll(rest, '\\', "\\\\");
      ReplaceAllConcat(a1, b1, ';', "\\;");
      var a2, b2 := ReplaceAll(a1, ';', "\\;"), ReplaceAll(b1, ';', "\\;");
      ReplaceAllConcat(a2, b2, ',', "\\,");
      var a3, b3 := ReplaceAll(a2, ',', "\\,"), ReplaceAll(b2, ',', "\\,");
      ReplaceAllConcat(a3, b3, '\n', "\\n");
      EscapeCharAsWritten(s[0]);
      EscapeAsWrittenIsEscape(rest);
    }
  }

  lemma EscapeCharAsWritten(c: char)
    ensures EscapeAsWritten([c]) == EscapeChar(c)
  {
    var bs, sc, cm, nl := "\\\\", "\\;", "\\,", "\\n";
    if c == '\\' {
      assert ReplaceAll([c], '\\', bs) == bs;
      assert ReplaceAll(bs, ';', sc) == bs;
      assert ReplaceAll(bs, ',', cm) == bs;
      assert ReplaceAll(bs, '\n', nl) == bs;
    } else if c == ';' {
      assert ReplaceAll([c], '\\', bs) == [c];
      assert ReplaceAll([c], ';', sc) == sc;
      assert ReplaceAll(sc, ',', cm) == sc;
      assert ReplaceAll(sc, '\n', nl) == sc;
    } else if c == ',' {
      assert ReplaceAll([c], '\\', bs) == [c];
      assert ReplaceAll([c], ';', sc) == [c];
      assert ReplaceAll([c], ',', cm) == cm;
      assert ReplaceAll(cm, '\n', nl) == cm;
    } else {
      assert ReplaceAll([c], '\\', bs) == [c];
      assert ReplaceAll([c], ';', sc) == [c];
      assert ReplaceAll([c], ',', cm) == [c];
    }
  }

  /** Reading escaped TEXT back (RFC 5545 section 3.3.11): `\\`, `\;`, `\,`
      and `\n` or `\N` stand for the character they escape. */
  function Unescape(s: string): string {
    if s == [] then []
    else if s[0] == '\\' && |s| >= 2 && (s[1] == '\\' || s[1] == ';' || s[1] == ',' || s[1] == 'n' || s[1] == 'N') then
      [if s[1] == 'n' || s[1] == 'N' then '\n' else s[1]] + Unescape(s[2..])
    else
      [s[0]] + Unescape(s[1..])
  }

  /** Unescaping restores what `escapeICS` escaped. */
  lemma {:induction false} UnescapeEscape(s: string)
    ensures Unescape(Escape(s)) == s
  {
    if s != [] {
      UnescapeEscape(s[1..]);
      var e, rest := EscapeChar(s[0]), Escape(s[1..]);
      var t := e + rest;
      if IsSpecial(s[0]) {
        assert t[0] == '\\' && t[2..] == rest;
      } else {
        assert t[0] == s[0] && t[1..] == rest;
      }
      assert s == [s[0]] + s[1..];
    }
  }

  // ---------------------------------------------------------------------------
  // DATE values (RFC 5545 section 3.3.4).
  // ---------------------------------------------------------------------------

  /** `formatDateForICS(new Date(event.date))`: year, then zero-padded month and
      day. An invalid date prints NaN three times. */
  function IcsDate(p: Option<Date>): (r: string)
    ensures p.Some? && ValidDate(p.value) && 1000 <= p.value.year <= 9999 ==>
      && |r| == 8 && AllDigits(r)
      && AllDigits(r[..4]) && DigitsValue(r[..4]) == p.value.year
      && AllDigits(r[4..6]) && DigitsValue(r[4..6]) == p.value.month + 1
      && AllDigits(r[6..]) && DigitsValue(r[6..]) == p.value.day
    ensures p.None? ==> !AllDigits(r)
  {
    match p
    case Some(d) =>
      var a, b, c := IntToString(d.year), ZeroPad2(IntToString(d.month + 1)), ZeroPad2(IntToString(d.day));
      if ValidDate(d) && 1000 <= d.year <= 9999 then
        DigitsOfYear(d.year);
        DigitsOfPadded(d.month + 1);
        DigitsOfPadded(d.day);
        EightDigits(a, b, c);
        EightDigitFields(a, b, c);
        a + b + c
      else
        a + b + c
    case None =>
      assert !IsDigit("NaNNaNNaN"[0]);
      "NaNNaNNaN"
  }

  /** A valid `YYYY-MM-DD` date with a four-digit year exports as the eight
      digits `YYYYMMDD` of its own text. */
  lemma IcsDateOfIso(s: string)
    requires ParseIsoDate(s).Some? && ParseIsoDate(s).value.year >= 1000
    ensures IcsDate(ParseIsoDate(s)) == s[..4] + s[5..7] + s[8..]
    ensures |IcsDate(ParseIsoDate(s))| == 8 && AllDigits(IcsDate(ParseIsoDate(s)))
  {
    var d := ParseIsoDate(s).value;
    ParsedPieces(s);
    IcsOfPieces(d, s[..4], s[5..7], s[8..]);
  }

  lemma IcsOfPieces(d: Date, a: string, b: string, c: string)
    requires IntToString(d.year) == a
    requires ZeroPad2(IntToString(d.month + 1)) == b && ZeroPad2(IntToString(d.day)) == c
    ensures IcsDate(Some(d)) == a + b + c
  {
  }

  lemma EightDigitFields(a: string, b: string, c: string)
    requires |a| == 4 && |b| == 2 && |c| == 2
    ensures (a + b + c)[..4] == a && (a + b + c)[4..6] == b && (a + b + c)[6..] == c
  {
  }

  lemma EightDigits(a: string, b: string, c: string)
    requires |a| == 4 && |b| == 2 && |c| == 2 && AllDigits(a) && AllDigits(b) && AllDigits(c)
    ensures |a + b + c| == 8 && AllDigits(a + b + c)
  {
    var t := a + b + c;
    forall i | 0 <= i < 8 ensures IsDigit(t[i]) {
      if i < 4 { assert t[i] == a[i]; }
      else if i < 6 { assert t[i] == b[i - 4]; }
      else { assert t[i] == c[i - 6]; }
    }
  }

  // ---------------------------------------------------------------------------
  // The document.
  // ---------------------------------------------------------------------------

  const Header: seq<string> := [
    "BEGIN:VCALENDAR",
    "VERSION:2.0",
    ProdId,
    "CALSCALE:GREGORIAN",
    "METHOD:PUBLISH",
    "X-WR-CALNAME:Calendar Ortodox 2025",
    "X-WR-TIMEZONE:Europe/Bucharest"]

  const ProdId: string := "PRODID:-//Mitropolia Targovistei//Calendar 2025//RO"

  const Footer: string := "END:VCALENDAR"

  /** The DESCRIPTION text: the type, then " - " and the fast label if present,
      then " - " and the description if present. */
  function DescriptionOf(e: Event): (r: string)
    ensures |r| == |e.category| + (if Present(e.fast) then 3 + |e.fast.value| else 0)
                               + (if Present(e.description) then 3 + |e.description.value| else 0)
    ensures r[..|e.category|] == e.category
    ensures Present(e.fast) ==> r[|e.category|..|e.category| + 3 + |e.fast.value|] == " - " + e.fast.value
    ensures Present(e.description) ==> r[|r| - |e.description.value| - 3..] == " - " + e.description.value
  {
    e.category
      + (if Present(e.fast) then " - " + e.fast.value else "")
      + (if Present(e.description) then " - " + e.description.value else "")
  }

  /** The seven lines of a VEVENT with the given DATE value, escaped summary,
      escaped description and unique identifier. */
  function VEvent(dt: string, summary: string, description: string, uid: string): (lines: seq<string>)
    ensures |lines| == 7
    ensures lines[0] == "BEGIN:VEVENT" && lines[6] == "END:VEVENT"
    ensures forall k :: 1 <= k < 6 ==> lines[k] != "BEGIN:VEVENT" && lines[k] != "END:VEVENT"
  {
    var lines := [
      "BEGIN:VEVENT",
      "DTSTART;VALUE=DATE:" + dt,
      "DTEND;VALUE=DATE:" + dt,
      "SUMMARY:" + summary,
      "DESCRIPTION:" + description,
      "UID:" + uid,
      "END:VEVENT"];
    assert forall k :: 1 <= k < 6 ==> lines[k][0] != 'B' && lines[k][0] != 'E';
    lines
  }

  /** The UID value: the raw date text, the `Date.now()` reading, the domain. */
  function UidOf(e: Event, stamp: int): (r: string)
    ensures |r| > |e.date| + |Domain| && r[..|e.date|] == e.date && r[|e.date|] == '-'
    ensures r[|r| - |Domain|..] == Domain
  {
    var r := e.date + "-" + IntToString(stamp) + Domain;
    assert r[..|e.date|] == e.date && r[|r| - |Domain|..] == Domain;
    r
  }

  /** The block `exportToICS` writes for one event; `stamp` is the `Date.now()`
      reading taken while writing it. */
  function VEventLines(e: Event, stamp: int): (lines: seq<string>)
    ensures |lines| == 7
  {
    VEvent(IcsDate(ParseIsoDate(e.date)), Escape(e.title), Escape(DescriptionOf(e)), UidOf(e, stamp))
  }

  /** The block of each event, in the order of the filtered list. */
  function Blocks(events: seq<Event>, stamps: seq<int>): (bs: seq<seq<string>>)
    requires |stamps| == |events|
    ensures |bs| == |events|
    ensures forall i :: 0 <= i < |events| ==> bs[i] == VEventLines(events[i], stamps[i])
  {
    seq(|events|, i requires 0 <= i < |events| => VEventLines(events[i], stamps[i]))
  }

  function Flatten(bs: seq<seq<string>>): seq<string> {
    if bs == [] then [] else bs[0] + Flatten(bs[1..])
  }

  /** The document's lines: header, one VEVENT per event, footer. */
  function ExportLines(events: seq<Event>, stamps: seq<int>): seq<string>
    requires |stamps| == |events|
  {
    Document(Blocks(events, stamps))
  }

  /** Lines each followed by a line feed, as `icsContent += '...\n'` writes them. */
  function Terminated(lines: seq<string>): string {
    if lines == [] then [] else lines[0] + "\n" + Terminated(lines[1..])
  }

  /** The text of the blocks, appended one after the other by the `forEach`. */
  function BlocksText(bs: seq<seq<string>>): string {
    if bs == [] then [] else Terminated(bs[0]) + BlocksText(bs[1..])
  }

  /** `exportToICS` as written: the header lines, each event's block, then
      `END:VCALENDAR` with no line feed after it. */
  function ExportToIcs(events: seq<Event>, stamps: seq<int>): (doc: string)
    requires |stamps| == |events|
    ensures doc == Join(ExportLines(events, stamps), '\n')
    ensures |doc| >= |Footer| && doc[|doc| - |Footer|..] == Footer
  {
    var doc := Terminated(Header) + BlocksText(Blocks(events, stamps)) + Footer;
    ExportIsJoinedLines(events, stamps);
    doc
  }

  lemma {:induction false} TerminatedConcat(a: seq<string>, b: seq<string>)
    ensures Terminated(a + b) == Terminated(a) + Terminated(b)
  {
    if a == [] {
      assert a + b == b;
    } else {
      assert (a + b)[0] == a[0] && (a + b)[1..] == a[1..] + b;
      TerminatedConcat(a[1..], b);
    }
  }

  lemma {:induction false} JoinTerminated(lines: seq<string>, last: string)
    ensures Join(lines + [last], '\n') == Terminated(lines) + last
  {
    if lines != [] {
      assert (lines + [last])[1..] == lines[1..] + [last];
      JoinTerminated(lines[1..], last);
    }
  }

  lemma {:induction false} BlocksTextTerminated(bs: seq<seq<string>>)
    ensures BlocksText(bs) == Terminated(Flatten(bs))
  {
    if bs != [] {
      BlocksTextTerminated(bs[1..]);
      TerminatedConcat(bs[0], Flatten(bs[1..]));
    }
  }

  lemma ExportIsJoinedLines(events: seq<Event>, stamps: seq<int>)
    requires |stamps| == |events|
    ensures Terminated(Header) + BlocksText(Blocks(events, stamps)) + Footer == Join(ExportLines(events, stamps), '\n')
  {
    var f := Flatten(Blocks(events, stamps));
    BlocksTextTerminated(Blocks(events, stamps));
    TerminatedConcat(Header, f);
    JoinTerminated(Header + f, Footer);
  }

  /** Blocks of seven lines laid end to end: line `7i + j` is line `j` of
      block `i`. */
  lemma {:induction false} FlattenIndex(bs: seq<seq<string>>, i: int, j: int)
    requires forall k :: 0 <= k < |bs| ==> |bs[k]| == 7
    requires 0 <= i < |bs| && 0 <= j < 7
    ensures |Flatten(bs)| == 7 * |bs|
    ensures Flatten(bs)[7 * i + j] == bs[i][j]
  {
    FlattenLength(bs);
    FlattenLength(bs[1..]);
    if i > 0 {
      FlattenIndex(bs[1..], i - 1, j);
      assert 7 * i + j == |bs[0]| + (7 * (i - 1) + j);
    }
  }

  lemma {:induction false} FlattenLength(bs: seq<seq<string>>)
    requires forall k :: 0 <= k < |bs| ==> |bs[k]| == 7
    ensures |Flatten(bs)| == 7 * |bs|
  {
    if bs != [] {
      FlattenLength(bs[1..]);
    }
  }

  /** The document around a list of seven-line blocks: header, blocks, footer. */
  function Document(bs: seq<seq<string>>): seq<string> {
    Header + Flatten(bs) + [Footer]
  }

  lemma DocumentInOrder(bs: seq<seq<string>>, i: int, j: int)
    requires forall k :: 0 <= k < |bs| ==> |bs[k]| == 7
    requires 0 <= i < |bs| && 0 <= j < 7
    ensures |Document(bs)| == 8 + 7 * |bs|
    ensures Document(bs)[7 + 7 * i + j] == bs[i][j]
  {
    FlattenIndex(bs, i, j);
    var tail := Flatten(bs) + [Footer];
    assert Document(bs) == Header + tail;
  }

  /** In the whole document, line `7 + 7i + j` is line `j` of event `i`'s block,
      after the seven header lines. */
  lemma ExportLinesInOrder(events: seq<Event>, stamps: seq<int>, i: int, j: int)
    requires |stamps| == |events| && 0 <= i < |events| && 0 <= j < 7
    ensures |ExportLines(events, stamps)| == 8 + 7 * |events|
    ensures ExportLines(events, stamps)[7 + 7 * i + j] == VEventLines(events[i], stamps[i])[j]
  {
    DocumentInOrder(Blocks(events, stamps), i, j);
  }

  /** Exactly one `BEGIN:VEVENT` and one `END:VEVENT` line per exported event. */
  lemma OneVEventPerEvent(events: seq<Event>, stamps: seq<int>)
    requires |stamps| == |events|
    ensures multiset(ExportLines(events, stamps))["BEGIN:VEVENT"] == |events|
    ensures multiset(ExportLines(events, stamps))["END:VEVENT"] == |events|
  {
    var bs := Blocks(events, stamps);
    var b := Flatten(bs);
    forall k | 0 <= k < |bs|
      ensures multiset(bs[k])["BEGIN:VEVENT"] == 1 && multiset(bs[k])["END:VEVENT"] == 1
    {
      var e := events[k];
      VEventCount(IcsDate(ParseIsoDate(e.date)), Escape(e.title), Escape(DescriptionOf(e)), UidOf(e, stamps[k]));
    }
    FlattenCount(bs, "BEGIN:VEVENT");
    FlattenCount(bs, "END:VEVENT");
    HeaderHasNoVEvent();
    assert ExportLines(events, stamps) == Header + b + [Footer];
    assert multiset(Header + b + [Footer]) == multiset(Header) + multiset(b) + multiset([Footer]);
  }

  lemma HeaderHasNoVEvent()
    ensures multiset(Header)["BEGIN:VEVENT"] == 0 && multiset(Header)["END:VEVENT"] == 0
  {
    assert "BEGIN:VEVENT" != "BEGIN:VCALENDAR";
    assert "BEGIN:VEVENT" !in Header && "END:VEVENT" !in Header;
  }

  /** A line value that each block holds once occurs once per block in the
      flattened lines. */
  lemma {:induction false} FlattenCount(bs: seq<seq<string>>, x: string)
    requires forall k :: 0 <= k < |bs| ==> multiset(bs[k])[x] == 1
    ensures multiset(Flatten(bs))[x] == |bs|
  {
    if bs != [] {
      FlattenCount(bs[1..], x);
      assert multiset(bs[0] + Flatten(bs[1..])) == multiset(bs[0]) + multiset(Flatten(bs[1..]));
    }
  }

  /** A VEVENT block opens and closes once, whatever its field values. */
  lemma VEventCount(dt: string, summary: string, description: string, uid: string)
    ensures multiset(VEvent(dt, summary, description, uid))["BEGIN:VEVENT"] == 1
    ensures multiset(VEvent(dt, summary, description, uid))["END:VEVENT"] == 1
  {
    var l := VEvent(dt, summary, description, uid);
    var mid := l[1..6];
    forall k | 0 <= k < 5 ensures mid[k] != "BEGIN:VEVENT" && mid[k] != "END:VEVENT" {
      assert mid[k][0] != 'B' && mid[k][0] != 'E';
    }
    assert l == [l[0]] + mid + [l[6]];
    assert multiset(mid)["BEGIN:VEVENT"] == 0 by {
      assert "BEGIN:VEVENT" !in mid;
    }
    assert multiset(mid)["END:VEVENT"] == 0 by {
      assert "END:VEVENT" !in mid;
    }
  }

  /** Number text holds no line feed. */
  lemma NumberNoLineFeed(n: int)
    ensures '\n' !in IntToString(n)
    ensures '\n' !in ZeroPad2(IntToString(n))
  {
    var digits := if n < 0 then NatToString(-n) else NatToString(n);
    DigitsNoLineFeed(digits);
    if n < 0 {
      assert IntToString(n) == "-" + digits;
    }
    PadNoLineFeed(IntToString(n));
  }

  lemma DigitsNoLineFeed(t: string)
    requires AllDigits(t)
    ensures '\n' !in t
  {
    forall i | 0 <= i < |t| ensures t[i] != '\n' {
      assert IsDigit(t[i]);
    }
  }

  lemma PadNoLineFeed(t: string)
    requires '\n' !in t
    ensures '\n' !in ZeroPad2(t)
  {
    if |t| == 0 { assert ZeroPad2(t) == "00"; }
    else if |t| == 1 { assert ZeroPad2(t) == "0" + t; }
  }

  lemma IcsDateNoLineFeed(p: Option<Date>)
    ensures '\n' !in IcsDate(p)
  {
    if p.Some? {
      NumberNoLineFeed(p.value.year);
      NumberNoLineFeed(p.value.month + 1);
      NumberNoLineFeed(p.value.day);
    }
  }

  /** A VEVENT block whose field values hold no line feed has no line feed
      inside any of its lines. */
  lemma VEventLineFree(dt: string, summary: string, description: string, uid: string)
    requires '\n' !in dt && '\n' !in summary && '\n' !in description && '\n' !in uid
    ensures forall j :: 0 <= j < 7 ==> '\n' !in VEvent(dt, summary, description, uid)[j]
  {
  }

  lemma EventLinesFree(e: Event, stamp: int)
    requires '\n' !in e.date
    ensures forall j :: 0 <= j < 7 ==> '\n' !in VEventLines(e, stamp)[j]
  {
    IcsDateNoLineFeed(ParseIsoDate(e.date));
    UidLineFree(e, stamp);
    VEventLineFree(IcsDate(ParseIsoDate(e.date)), Escape(e.title), Escape(DescriptionOf(e)), UidOf(e, stamp));
  }

  lemma UidLineFree(e: Event, stamp: int)
    requires '\n' !in e.date
    ensures '\n' !in UidOf(e, stamp)
  {
    NumberNoLineFeed(stamp);
    DomainLineFree();
    JoinLineFree(e.date + "-", IntToString(stamp), Domain);
  }

  const Domain := "@mitropolia-targovistei.ro"

  lemma DomainLineFree()
    ensures '\n' !in Domain
  {
    assert Domain == "@mitropolia" + "-targovistei.ro";
  }

  lemma JoinLineFree(a: string, b: string, c: string)
    requires '\n' !in a && '\n' !in b && '\n' !in c
    ensures '\n' !in a + b + c
  {
  }

  /** When no event date holds a line feed, the document splits at its line
      feeds into exactly the header, the VEVENT lines and the footer: escaping
      keeps every SUMMARY and DESCRIPTION on one line. */
  lemma ExportSplitsIntoLines(events: seq<Event>, stamps: seq<int>)
    requires |stamps| == |events|
    requires forall i :: 0 <= i < |events| ==> '\n' !in events[i].date
    ensures Split(ExportToIcs(events, stamps), '\n') == ExportLines(events, stamps)
  {
    var bs := Blocks(events, stamps);
    forall i, j | 0 <= i < |bs| && 0 <= j < |bs[i]| ensures '\n' !in bs[i][j] {
      EventLinesFree(events[i], stamps[i]);
    }
    DocumentSplits(bs);
  }

  lemma DocumentSplits(bs: seq<seq<string>>)
    requires forall k :: 0 <= k < |bs| ==> |bs[k]| == 7
    requires forall i, j :: 0 <= i < |bs| && 0 <= j < |bs[i]| ==> '\n' !in bs[i][j]
    ensures Split(Join(Document(bs), '\n'), '\n') == Document(bs)
  {
    var lines := Document(bs);
    FlattenLength(bs);
    forall k | 0 <= k < |lines| ensures '\n' !in lines[k] {
      if 7 <= k < 7 + 7 * |bs| {
        var i, j := (k - 7) / 7, (k - 7) % 7;
        assert k == 7 + 7 * i + j;
        DocumentInOrder(bs, i, j);
      } else if k < 7 {
        assert lines[k] == Header[k];
        HeaderLineFree(k);
      } else {
        assert lines[k] == Footer;
      }
    }
    SplitJoin(lines, '\n');
  }

  lemma HeaderLineFree(k: int)
    requires 0 <= k < |Header|
    ensures '\n' !in Header[k]
  {
    if k < 3 { HeaderHeadFree(k); } else { HeaderTailFree(k); }
  }

  lemma HeaderHeadFree(k: int)
    requires 0 <= k < 3
    ensures '\n' !in Header[k]
  {
    if k == 0 { assert Header[k] == "BEGIN:VCALENDAR"; }
    else if k == 1 { assert Header[k] == "VERSION:2.0"; }
    else { assert Header[k] == ProdId; ProdIdLineFree(); }
  }

  lemma ProdIdLineFree()
    ensures '\n' !in ProdId
  {
    var a, b := "PRODID:-//Mitropolia Targovistei//", "Calendar 2025//RO";
    assert ProdId == a + b;
    assert '\n' !in a;
    assert '\n' !in b;
  }

  lemma HeaderTailFree(k: int)
    requires 3 <= k < |Header|
    ensures '\n' !in Header[k]
  {
    if k == 3 { assert Header[k] == "CALSCALE:GREGORIAN"; }
    else if k == 4 { assert Header[k] == "METHOD:PUBLISH"; }
    else if k == 5 { assert Header[k] == "X-WR-CALNAME:Calendar Ortodox 2025"; }
    else { assert Header[k] == "X-WR-TIMEZONE:Europe/Bucharest"; }
  }
}
