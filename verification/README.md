# Orthodox calendar site — front-end logic in Dafny

This project models the browser scripts of a parish website that publishes
the Orthodox calendar for 2025. The scripts live under `assets/js/`:

- **Calendar** (`calendar.js`) loads the calendar events and the local events
  and filters them by type and by month.
- It renders them as a date-sorted timeline or as a month grid you can page
  through, and lists one day's events when its grid cell is clicked.
- It exports the filtered events as an iCalendar file (RFC 5545).
- **Gallery** (`galerie.js`) shows images a screenful at a time, sized by
  viewport tier, behind a "load more" button.
- **Lightbox** (`lightbox.js`) shows one image at a time, with circular
  navigation by button, arrow key or swipe, and a Tab focus trap.
- **Translations** (`i18n.js`) provide Romanian/English text. Keys are looked
  up by dotted paths in a tree, and a load falls back to Romanian.
- **Page chrome** (`main.js`) holds the e-mail check, the mobile menu, the two
  scroll thresholds and the anchor-link scroll.

Everything is modelled as immutable datatypes, pure transition functions and,
for the month grid's loops, methods that touch no heap.
The DOM is treated as the thing being rendered to. Fetch results, the stored
language preference, the viewport width, scroll positions, touch coordinates
and `Date.now()` readings are all parameters.

Modules, one per concern:

- `Wrappers`: `Option`.
- `Text`: decimal printing, `padStart(2, '0')`, split and join, upper case.
- `Dates`: the proleptic Gregorian calendar, `YYYY-MM-DD` parsing, day keys.
- `Events`: loading, filters, the list view and the day list.
- `MonthGrid`: the month cursor and the grid of day cells.
- `Ics`: the export.
- `Gallery`, `Lightbox`, `I18n` and `PageChrome`.

Two fall-backs of the code are part of the model:

- After a failed gallery load the code shows twenty generated placeholder
  images.
- After a failed load of a language other than Romanian, the translation
  loader switches to Romanian and requests it once more.

## Model

| member | source | states |
|---|---|---|
| Events.LoadEvents | assets/js/calendar.js:34-56 | a missing primary collection leaves both sets empty; otherwise the full set is the primary events followed by the local ones (none when the local load failed), and the filtered set starts as the full set |
| Events.LoadedStoreUnfiltered | assets/js/calendar.js:50-51 | the freshly loaded filtered set equals filtering the full set with "all"/"all" |
| Events.TypeChoiceOf | assets/js/calendar.js:109 | a missing, empty or `all` type control means any type; otherwise the control's value is the required type |
| Events.MonthChoiceOf | assets/js/calendar.js:110-115 | a missing, empty or `all` month control means any month; otherwise the choice is a month number exactly when `parseInt` reads a number from the value, and then it is that number, and NaN otherwise; an all-digit value selects its decimal value |
| Events.MonthChoiceOfValue | assets/js/calendar.js:110-115 | a value other than `all` selects exactly what `parseInt` reads from it, NaN included |
| Events.MonthChoiceOfPrinted | assets/js/calendar.js:115 | a value that prints a month number, negative ones included, selects that number |
| Events.MonthChoiceSignExamples | assets/js/calendar.js:115 | the values ` 3` and `+3` select month 3 and `-0` selects month 0 (January) |
| Events.MonthChoicePrefixExamples | assets/js/calendar.js:115 | the value `0x0A` selects month 10 (hexadecimal) and `x` selects nothing (NaN) |
| Events.MonthChoiceLeadingZeroExample | assets/js/calendar.js:115 | the three-character value `011` selects month 11 (December) |
| Events.MonthMatches | assets/js/calendar.js:113-115 | an event matches a month number only when the number lies in 0..11 and the date text is `YYYY-MM-DD` with `MM` reading that number plus one |
| Events.ApplyFilters | assets/js/calendar.js:105-118 | the filtered events are exactly those matching both choices, each kept with its multiplicity and nothing else |
| Events.FilterAllIsIdentity | assets/js/calendar.js:109-118 | "all" types and "all" months keep the whole list in order |
| Events.FilterMerged | assets/js/calendar.js:112-118 | filtering primary ++ local equals filtering each part and concatenating |
| Events.FilterIdempotent | assets/js/calendar.js:112-118 | filtering the filtered list again changes nothing |
| Events.FilterComposes | assets/js/calendar.js:112-118 | filtering by type, then by month, equals filtering by both |
| Events.FeastExample | assets/js/calendar.js:112-118 | of a 7 January feast and a 15 March fast, the type `feast` in any month keeps the feast alone |
| Events.NotAfter | assets/js/calendar.js:142-144 | for two dates that parse, the comparator puts a first exactly when it is not later in the calendar: earlier year, or same year and earlier month, or same month and no later day |
| Events.NotAfterTotal | assets/js/calendar.js:142-144 | the date order compares any two events |
| Events.NotAfterTransitive | assets/js/calendar.js:142-144 | the date order is transitive |
| Events.InsertByDate | assets/js/calendar.js:142-144 | inserting into a date-sorted list keeps it sorted and adds exactly that event |
| Events.SortByDate | assets/js/calendar.js:142-144 | the timeline order is non-decreasing by date and a permutation of the filtered events |
| Events.RenderListView | assets/js/calendar.js:132-170 | an empty filtered set gives the single "no events" message; otherwise one timeline entry per event, in date order |
| Events.EntryOf | assets/js/calendar.js:148-166 | an entry shows the day of the month and the short month name of the event's date (`NaN` and `undefined` for a date that does not parse) and its title; the meta line is the type, followed by ` • ` and the fast label exactly when a fast label is present; the description shown is the event's own, and it appears exactly when present |
| Events.MonthName | assets/js/calendar.js:351-357 | a name exists exactly for months 0 to 11, is at least three letters long and starts with a capital |
| Events.MonthNameShort | assets/js/calendar.js:362-365 | a short name exists exactly for months 0 to 11 and is three capital letters |
| Events.MonthTablesAgree | assets/js/calendar.js:351-365 | every short name is the first three letters of the full name in upper case, except November (`NOV` against `Noiembrie`) |
| Events.MonthNamesDistinct | assets/js/calendar.js:351-365 | different months have different full and short names |
| Events.ShowDayEvents | assets/js/calendar.js:259-262 | nothing is shown when no filtered event has that date; otherwise exactly the filtered events with that date, with multiplicity |
| Events.ShowDayEventsInOrder | assets/js/calendar.js:259-262 | the day list of two concatenated lists is the day list of the first followed by that of the second, so events keep their filtered order |
| Events.ShowDayEventsOne | assets/js/calendar.js:259-262 | a single event is listed exactly when its date is the clicked day |
| Dates.DaysInMonth | assets/js/calendar.js:218-219 | a month has 28 to 31 days |
| Dates.Weekday | assets/js/calendar.js:217 | the weekday lies in 0 (Sunday) to 6 |
| Dates.DaysBeforeMonthStep | assets/js/calendar.js:218-219 | the day count before month m+1 is the count before m plus the length of m, and twelve months make the year's length |
| Dates.YearStep | assets/js/calendar.js:217 | the day count before year y+1 is the count before y plus the length of y |
| Dates.NextFirstWeekday | assets/js/calendar.js:217-218 | the weekday of the next month's first day is this first day's weekday plus this month's length, mod 7, across the year's end too |
| Dates.CalendarAnchors | assets/js/calendar.js:217-219 | 1 January 2000 is a Saturday, 1 January 2025 a Wednesday, 1 February 2024 a Thursday; February has 29 days in 2024 and 28 in 2025 and 1900 |
| Dates.DayNumberOrder | assets/js/calendar.js:142-144 | day numbers of two real days compare as the days do in the calendar: by year, then month, then day |
| Dates.ParseIsoDate | assets/js/calendar.js:113 | a parsed date text has the `YYYY-MM-DD` shape and names a real calendar day |
| Dates.ParsedFields | assets/js/calendar.js:113 | the parsed year, month and day are the digit fields of the text, with a zero-based month |
| Dates.DayKey | assets/js/calendar.js:231 | the grid cell key: year, dash, month plus one padded to two digits, dash, day padded to two digits; its meaning is stated by Dates.ParseDayKey and Dates.DayKeyInjective |
| Dates.DayKeyOfParsed | assets/js/calendar.js:231-232 | the grid key built from a parsed four-digit-year date is the original text |
| Dates.ParseDayKey | assets/js/calendar.js:231 | every grid key of a real day with a four-digit year parses back to that day |
| Dates.DayKeyInjective | assets/js/calendar.js:231-232 | two such days have the same key exactly when they are the same day |
| Dates.ParsedPieces | assets/js/calendar.js:331-335 | the printed year and zero-padded month and day of a parsed date are the text's own fields |
| Dates.DigitsOfPadded | assets/js/calendar.js:231 | `padStart(2, '0')` of a number below 100 is two digits that read back as that number |
| Dates.DigitsOfYear | assets/js/calendar.js:231 | a four-digit year prints as four digits that read back as the year |
| Dates.YearDigitsRoundTrip | assets/js/calendar.js:332 | four digits with no leading zero print back unchanged |
| Text.NatToString | assets/js/calendar.js:231 | a number prints as at least one digit, reads back as itself, and has no leading zero |
| Text.IntToString | assets/js/calendar.js:231 | a negative number prints as a minus sign before its magnitude |
| Text.ZeroPad2 | assets/js/calendar.js:231 | the padded text has length at least 2, ends with the input, and is padded with zeros |
| Text.NatToStringLength | assets/js/calendar.js:231 | numbers below 10, 100, 1000 and 10000 print with 1, 2, 3 and 4 digits |
| Text.NatToStringOfDigits | assets/js/calendar.js:231 | a digit text without a leading zero is the printing of its value |
| Text.TwoDigitsRoundTrip | assets/js/calendar.js:333-334 | two digits read as a number and padded again give the same text |
| Text.SkipJsSpace | assets/js/calendar.js:115 | `parseInt` drops the leading white space (the characters of the `\s` class) and nothing else |
| Text.LongestPrefix | assets/js/calendar.js:115 | the longest prefix of accepted characters: every character kept is accepted and the next one is not |
| Text.ParseMagnitude | assets/js/calendar.js:115 | an unsigned run of decimal digits reads as its decimal value; `0x` and `0X` switch to hexadecimal |
| Text.ParseInt | assets/js/calendar.js:115 | `parseInt` of an all-digit text is its decimal value |
| Text.ParseIntOfIntToString | assets/js/calendar.js:115 | `parseInt` reads back every printed integer, negative ones included |
| Text.ParseIntSkipsSpace | assets/js/calendar.js:115 | a leading white-space character does not change what `parseInt` reads |
| Text.ParseIntSignExamples | assets/js/calendar.js:115 | ` 3` and `+3` read 3, `-3` reads −3, and `-0` reads 0 |
| Text.ParseIntHexExample | assets/js/calendar.js:115 | `0x0A` reads 10 |
| Text.ParseIntTrailingExample | assets/js/calendar.js:115 | `3rd` reads 3: reading stops at the first non-digit |
| Text.ParseIntNoDigit | assets/js/calendar.js:115 | a text whose first character is neither white space, a sign nor a digit reads as NaN |
| Text.ParseIntNaNPrefix | assets/js/calendar.js:115 | `0x` with no hexadecimal digit after it, and the empty text, read as NaN |
| Text.Split | assets/js/i18n.js:83 | splitting gives at least one part and no part contains the separator |
| Text.JoinSplit | assets/js/i18n.js:83 | joining the parts with the separator restores the text |
| Text.SplitJoin | assets/js/calendar.js:290-316 | parts without the separator, joined and split again, come back unchanged |
| Text.SplitAround | assets/js/i18n.js:83 | splitting `a.b` gives the parts of `a` followed by the parts of `b` |
| MonthGrid.InitialCursor | assets/js/calendar.js:12-13 | the grid opens on the current month of the year 2025 |
| MonthGrid.NextMonth | assets/js/calendar.js:190-198 | next keeps the cursor valid, steps the month index up by one and changes the year exactly after December |
| MonthGrid.PrevMonth | assets/js/calendar.js:179-187 | previous keeps the cursor valid, steps the month index down by one and changes the year exactly before January |
| MonthGrid.MonthIndexInjective | assets/js/calendar.js:179-198 | two valid cursors with the same month index are equal |
| MonthGrid.NextPrevInverse | assets/js/calendar.js:179-198 | previous undoes next and next undoes previous |
| MonthGrid.NextMonthsIndex | assets/js/calendar.js:190-198 | k clicks on next advance the month index by k |
| MonthGrid.TwelveNextsIsAYear | assets/js/calendar.js:190-198 | twelve clicks on next reach the same month of the following year |
| MonthGrid.MonthTitle | assets/js/calendar.js:212-214 | the heading is the month's full name, a space, and the year |
| MonthGrid.LayoutOf | assets/js/calendar.js:216-219 | the first day's weekday is 0..6 and both month lengths are 28..31 |
| MonthGrid.ConstructorYear | assets/js/calendar.js:216-219 | the Date constructor keeps every year except 0..99, which it reads as 1900..1999 |
| MonthGrid.TrailingCount | assets/js/calendar.js:239-240 | fewer than seven trailing cells, completing the last week |
| MonthGrid.TrailingMod | assets/js/calendar.js:239-240 | there are no trailing cells exactly when the used cells fill whole weeks; otherwise the trailing cells complete the remainder to 7 |
| MonthGrid.RenderMonthGrid | assets/js/calendar.js:221-243 | whole weeks: the last days of the previous month, then one cell per day with its key and event tag, then the first days of the next month |
| MonthGrid.LayCells | assets/js/calendar.js:223-243 | the three runs of cells laid end to end fill whole weeks, with fewer than seven trailing cells |
| MonthGrid.LeadingCells | assets/js/calendar.js:224-227 | the leading cells count down to the previous month's last day |
| MonthGrid.MonthCells | assets/js/calendar.js:230-236 | one cell for each day 1..n, in order |
| MonthGrid.TrailingCells | assets/js/calendar.js:241-243 | the trailing cells number 1, 2, 3 and so on |
| MonthGrid.HasEventCellsOpenDayList | assets/js/calendar.js:231-262 | a cell is tagged `has-event` exactly when clicking it lists events |
| MonthGrid.HasEventMeansSameDay | assets/js/calendar.js:231-232 | for four-digit years a cell is tagged exactly when some filtered event's date parses to that day |
| MonthGrid.ConsecutiveGridsTile | assets/js/calendar.js:216-243 | this month's trailing cells and next month's leading cells make nothing or exactly one week |
| MonthGrid.February2024Layout | assets/js/calendar.js:216-219 | February 2024 starts on a Thursday, has 29 days and follows a 31-day month |
| Ics.Escape | assets/js/calendar.js:341-346 | escaped text has no line feed, and is longer by one character per special character |
| Ics.EscapeAsWrittenIsEscape | assets/js/calendar.js:341-346 | the four global replacements, backslash first, equal escaping each character once |
| Ics.EscapeAsWritten | assets/js/calendar.js:341-346 | the four global replacements leave a text without special characters unchanged |
| Ics.UnescapeEscape | assets/js/calendar.js:341-346 | reading escaped TEXT back by section 3.3.11 of RFC 5545 restores the original |
| Ics.IcsDate | assets/js/calendar.js:331-336 | a real day with a four-digit year prints as eight digits whose fields read as the year, the one-based month and the day; an invalid date prints text that is not all digits |
| Ics.IcsDateOfIso | assets/js/calendar.js:331-336 | a valid `YYYY-MM-DD` date with a four-digit year exports as its own eight digits `YYYYMMDD` |
| Ics.DescriptionOf | assets/js/calendar.js:307-309 | the description is the type, then ` - ` and the fast label if present, then ` - ` and the description if present |
| Ics.VEvent | assets/js/calendar.js:302-313 | a block is seven lines, opened by `BEGIN:VEVENT` and closed by `END:VEVENT`, with no other delimiter line between them |
| Ics.UidOf | assets/js/calendar.js:312 | the UID starts with the event's date text and a dash and ends with `@mitropolia-targovistei.ro` |
| Ics.Blocks | assets/js/calendar.js:298-314 | one VEVENT block per filtered event, in order |
| Ics.ExportToIcs | assets/js/calendar.js:289-316 | the file is the header, block and footer lines joined by line feeds, and it ends with `END:VCALENDAR` |
| Ics.ExportIsJoinedLines | assets/js/calendar.js:290-316 | appending each line with a line feed and ending with the footer equals joining the lines |
| Ics.ExportLinesInOrder | assets/js/calendar.js:298-314 | the file has 8 + 7n lines, and line 7 + 7i + j is line j of event i's block |
| Ics.OneVEventPerEvent | assets/js/calendar.js:298-314 | the file has exactly one `BEGIN:VEVENT` and one `END:VEVENT` line per exported event |
| Ics.VEventCount | assets/js/calendar.js:302-313 | a block opens and closes once, whatever its field values |
| Ics.HeaderHasNoVEvent | assets/js/calendar.js:290-296 | the calendar header holds no VEVENT delimiters |
| Ics.EventLinesFree | assets/js/calendar.js:299-312 | no line of an event's block holds a line feed when its date text has none |
| Ics.ExportSplitsIntoLines | assets/js/calendar.js:289-316 | when no date holds a line feed, splitting the file at line feeds gives exactly its header, block and footer lines |
| Gallery.TierOf | assets/js/galerie.js:85-95 | desktop iff width ≥ 1024, tablet iff 768 ≤ width < 1024, mobile otherwise |
| Gallery.TierMonotone | assets/js/galerie.js:85-95 | a wider viewport never gets a lower tier |
| Gallery.InitialCount | assets/js/galerie.js:12-17 | the first screenful is four images on phones and tablets and six on desktops |
| Gallery.BatchSize | assets/js/galerie.js:18-22 | a click adds four images on phones and tablets and six on desktops |
| Gallery.FallbackGallery | assets/js/galerie.js:68-80 | the fallback list has twenty entries, entry k being the generated image numbered k + 1 |
| Gallery.FallbackSourcesDistinct | assets/js/galerie.js:68-80 | the fallback images name pairwise different files and are 1200 by 900 |
| Gallery.ItemOf | assets/js/galerie.js:135-153 | an item keeps the image's file and alt text and carries its global index; its size is the image's, with 800 and 600 for a missing width and height; it has a caption attribute exactly when the caption is non-empty, holding that caption; its label is `Vizualizează: ` followed by the alt text, or by `Imagine din galerie` when the alt text is empty |
| Gallery.ItemsFrom | assets/js/galerie.js:112-118 | the rendered items are one per image, with consecutive global indices from the start index |
| Gallery.ItemsFromConcat | assets/js/galerie.js:215-217 | rendering the first a images and then images a..b renders the first b images |
| Gallery.KeyTarget | assets/js/galerie.js:158-168 | Enter or Space opens the lightbox at the item's index; other keys do nothing |
| Gallery.Slice | assets/js/galerie.js:202 | `slice` clamps both bounds to the length and yields the elements from the start bound on |
| Gallery.UpdateMoreButtonAsWritten | assets/js/galerie.js:234-254 | nothing remaining hides the button and adds the completion message; otherwise the label shows the remaining count, and the button's display is left as it was |
| Gallery.UpdateMoreButton | assets/js/galerie.js:234-254 | corrected: the button is shown exactly when images remain, and then its label carries the remaining count |
| Gallery.MoreLabelCount | assets/js/galerie.js:250-252 | the label ends with the remaining count in parentheses |
| Gallery.RenderInitial | assets/js/galerie.js:100-107 | the first screenful is the first min(initial count, n) images, while the cursor becomes the initial count even for shorter lists; the button is updated as written |
| Gallery.InitGallery | assets/js/galerie.js:40-63 | the images are the loaded list, or the fallback list when the load failed; the tier follows the width; the grid shows the first screenful |
| Gallery.LoadMore | assets/js/galerie.js:198-229 | a click appends the next batch with its global indices and advances the cursor by the batch taken; the cursor never decreases, and past the end the grid and the cursor stay as they are |
| Gallery.Resize | assets/js/galerie.js:306-317 | a resize never changes the cursor or the grid; an unchanged tier changes nothing |
| Gallery.Reload | assets/js/galerie.js:324-331 | after a reload the grid shows exactly the images before the cursor, which sits at the initial count for the current width; the images are the loaded list or the fallback; while images remain, the button keeps the display it had before the reload |
| Gallery.ReloadCorrected | assets/js/galerie.js:324-331 | with the corrected update, a reload ends with the grid showing the images before the cursor and the button shown exactly when images remain |
| Gallery.CorrectedAgreesWhenShown | assets/js/galerie.js:234-254 | the corrected and the as-written update agree whenever the button was visible or nothing remains |
| Gallery.ActivatedItemIsItsImage | assets/js/galerie.js:158-168 | activating the k-th grid item opens the lightbox at k, on the k-th image |
| Gallery.LoadMoreTimes | assets/js/galerie.js:198-229 | any number of clicks keeps the grid showing exactly the images before the cursor |
| Gallery.ClicksReachTheEnd | assets/js/galerie.js:198-229 | k clicks bring the cursor to at least min(n, cursor + k × batch) |
| Gallery.AllShownAtTheEnd | assets/js/galerie.js:240-247 | once the cursor is past the end, every image is on the grid, the button is hidden and the completion message is shown |
| Gallery.ReloadLeavesButtonHidden | assets/js/galerie.js:242-253 | as written, once every image is shown and the button hidden, a reload to a shorter first screenful leaves images remaining with the button still hidden |
| Gallery.ReloadLeavesTwelveHidden | assets/js/galerie.js:324-331 | as written, with twelve images all shown on a phone, a reload back to four leaves 8 images remaining but the button hidden |
| Gallery.ReloadShowsButton | assets/js/galerie.js:324-331 | with the corrected update, after any reload, even one following a batch that showed every image, the button shows exactly when images remain |
| Lightbox.JsRem | assets/js/lightbox.js:120-128 | JavaScript `%`: the remainder of a non-negative number is the mathematical one in 0..n−1; of a negative number it is minus the remainder of its magnitude, in −(n−1)..0; in both cases the number minus the remainder is a multiple of n |
| Lightbox.CaptionOf | assets/js/lightbox.js:106 | the caption is `data-caption` when present and non-empty, otherwise the alt text |
| Lightbox.Counter | assets/js/lightbox.js:110 | the counter text; what it reads is stated by Lightbox.CounterReads |
| Lightbox.CounterReads | assets/js/lightbox.js:110 | the counter reads the one-based position, ` / `, then the number of images |
| Lightbox.UpdateContent | assets/js/lightbox.js:98-114 | nothing changes when the index has no image; otherwise the content shows that image and the nav buttons follow the count |
| Lightbox.ContentOf | assets/js/lightbox.js:101-107 | the overlay shows the thumbnail's file, alt text and caption |
| Lightbox.Open | assets/js/lightbox.js:64-80 | opening with no images does nothing; otherwise it takes the index unchecked, shows the overlay, locks scrolling and focuses the close button; an index with an image shows that image's content with the nav buttons shown exactly when there are several images, and an absent index keeps the old content |
| Lightbox.Close | assets/js/lightbox.js:85-93 | closing hides the overlay, unlocks scrolling and returns focus to the current thumbnail when it exists |
| Lightbox.NextIndex | assets/js/lightbox.js:119-122 | from an index in range, next stays in range, moving one forward and wrapping from last to first |
| Lightbox.PrevIndex | assets/js/lightbox.js:127-130 | from an index in range, previous stays in range, moving one back and wrapping from first to last |
| Lightbox.Next | assets/js/lightbox.js:119-122 | next moves the index and changes nothing but the content and nav display: visibility, scroll lock and focus stay; an index with an image shows it with the nav buttons following the count, an absent one keeps the old content |
| Lightbox.Prev | assets/js/lightbox.js:127-130 | previous moves the index and changes nothing but the content and nav display: visibility, scroll lock and focus stay; an index with an image shows it with the nav buttons following the count, an absent one keeps the old content |
| Lightbox.NextPrevInverse | assets/js/lightbox.js:119-130 | next undoes previous and previous undoes next |
| Lightbox.NextTimesWraps | assets/js/lightbox.js:119-122 | k nexts from i land on (i + k) mod n |
| Lightbox.FullTurn | assets/js/lightbox.js:119-122 | n nexts return to the starting image |
| Lightbox.HandleKey | assets/js/lightbox.js:177-191 | keys do nothing while the overlay is hidden; Escape closes, ArrowLeft goes back, ArrowRight forward, and any other key is ignored |
| Lightbox.Swipe | assets/js/lightbox.js:219-232 | a swipe of 50 pixels or less does nothing; more than 50 leftwards goes forward and rightwards goes back |
| Lightbox.SwipeBackAndForth | assets/js/lightbox.js:219-232 | a long swipe one way and back returns to the same image |
| Lightbox.TrapTab | assets/js/lightbox.js:237-261 | only Tab on the last focusable element (to the first) and Shift+Tab on the first (to the last) are redirected |
| Lightbox.FocusStaysInside | assets/js/lightbox.js:237-261 | Tab and Shift+Tab never move focus out of the overlay's focusable elements |
| Lightbox.TabShiftTabInverse | assets/js/lightbox.js:237-261 | Shift+Tab undoes Tab and Tab undoes Shift+Tab inside the overlay |
| Lightbox.OpenShows | assets/js/lightbox.js:64-114 | opening at an index with an image makes the overlay show that image, with the nav buttons following the count |
| Lightbox.StepsKeepShowing | assets/js/lightbox.js:85-145 | next, previous and close keep the index in range and the overlay showing its current image |
| Lightbox.NavigationKeepsShowing | assets/js/lightbox.js:177-232 | every key and swipe keeps the index in range and the overlay showing its current image |
| I18n.Descend | assets/js/i18n.js:83 | nothing found stays nothing found |
| I18n.DescendConcat | assets/js/i18n.js:83 | descending along p then q equals descending along p ++ q |
| I18n.LookupNested | assets/js/i18n.js:82-84 | looking up `a.b` is looking up `b` inside what `a` finds |
| I18n.LookupSimple | assets/js/i18n.js:82-84 | a key without dots is a direct child of the root, or missing |
| I18n.Step | assets/js/i18n.js:83 | one reduce step finds something exactly when the current value is a group holding the key, and then it is that member |
| I18n.Lookup | assets/js/i18n.js:82-84 | a lookup finds something only in a group file whose root holds the key's first segment |
| I18n.Translate | assets/js/i18n.js:64-75 | a falsy lookup leaves the element alone; a truthy one goes to the placeholder of INPUT and TEXTAREA and to the text of anything else, touching nothing more |
| I18n.ApplyTranslations | assets/js/i18n.js:61-77 | every `data-i18n` element is translated by the same rule, in order |
| I18n.ApplyIdempotent | assets/js/i18n.js:61-77 | applying the same translations twice changes nothing more |
| I18n.Toggled | assets/js/i18n.js:96 | Romanian goes to English and anything else to Romanian |
| I18n.ToggleTwice | assets/js/i18n.js:96 | two toggles from Romanian or English come back to it |
| I18n.InitialLanguage | assets/js/i18n.js:20 | start-up uses the stored preference unless it is absent or empty, otherwise Romanian |
| I18n.Load | assets/js/i18n.js:41-56 | a loaded file replaces the table; a failed Romanian load changes nothing else; a failed other language switches to Romanian and requests it exactly once more |
| I18n.UpdateSwitcher | assets/js/i18n.js:117-127 | the switcher names the other language and targets it in `data-lang` |
| I18n.Init | assets/js/i18n.js:18-36 | start-up keeps the stored preference, ends in the language that loaded, with its table (the preferred one's, else Romanian's, else empty), the page translated by it, the document language set to it, and the switcher pointing to the other |
| I18n.ToggleAsWritten | assets/js/i18n.js:94-111 | as written, a click does everything the corrected click does except that the document language becomes the clicked language, whatever loaded |
| I18n.ToggleAsWrittenMislabels | assets/js/i18n.js:94-111 | as written, a failed English load leaves a Romanian page whose document language says `en` |
| I18n.Toggle | assets/js/i18n.js:94-111 | a click stores the other language and ends in it with its table when its file loads, in Romanian with its table otherwise (keeping the old table when no file loads), and sets the document language to the language in effect |
| I18n.ToggleRoundTrip | assets/js/i18n.js:94-111 | with both files available, two clicks return to the starting language and its table |
| I18n.StoredSurvivesFallback | assets/js/i18n.js:94-111 | a failed English load keeps `en` stored while the page falls back to Romanian, after requesting `en` then `ro` |
| PageChrome.IndexOf | assets/js/main.js:150 | the first position of a character, or −1 exactly when it is absent |
| PageChrome.ValidateEmail | assets/js/main.js:149-152 | an accepted address has at least five characters, does not start or end with `@`, and holds an `@` |
| PageChrome.ValidateEmailMatchesPattern | assets/js/main.js:149-152 | the direct check accepts exactly the texts that split into plain runs around one `@` and a later `.` |
| PageChrome.PatternForces | assets/js/main.js:149-152 | any matching split makes the direct check accept |
| PageChrome.AcceptsAddress | assets/js/main.js:149-152 | `preot@parohia.ro` is accepted |
| PageChrome.RejectsMalformed | assets/js/main.js:149-152 | an address with a space, with nothing before `@`, or with two `@` is rejected |
| PageChrome.ToggleMenu | assets/js/main.js:25-33 | a toggle flips `aria-expanded` and the `active` class, locks scrolling exactly when the menu was closed, and does not move the focus |
| PageChrome.HandleTrigger | assets/js/main.js:36-61 | an outside click, Escape on an active menu, or a width of 1024 or more closes the menu; anything else leaves it as it is; only Escape on an active menu moves the focus, to the menu toggle |
| PageChrome.MenuStaysCoherent | assets/js/main.js:25-61 | every handler keeps `aria-expanded`, `active` and the scroll lock in agreement |
| PageChrome.MenuIdempotence | assets/js/main.js:25-61 | closing twice is closing once, and two toggles restore a coherent menu |
| PageChrome.HeaderShadow | assets/js/main.js:77-81 | the strong shadow shows exactly past 50 pixels |
| PageChrome.ScrollTopVisible | assets/js/main.js:131-135 | the scroll-to-top button shows exactly past 300 pixels |
| PageChrome.ThresholdsNest | assets/js/main.js:131-135 | both indicators stay on further down the page, and the button never shows without the strong shadow |
| PageChrome.AnchorClick | assets/js/main.js:94-116 | `#` and a missing target do nothing; any other link with a target scrolls the window to the target's top + page offset − 80 and pushes the link |
| PageChrome.AnchorClickSettles | assets/js/main.js:105-115 | the scroll target does not depend on where the page was scrolled when clicked, and a second click once there scrolls to the same place |

## Findings

| source | as written | input that shows it | evidently intended | confidence | as-written member | corrected member |
|---|---|---|---|---|---|---|
| assets/js/galerie.js:242-253 | once nothing remains the button gets `display: none`, and no later update shows it again | twelve images, all shown on a phone, then `progressiveGalleryAPI.reload()`: 8 images remain, the button stays hidden | the button shows whenever images remain, as after the first load | medium, not executed | Gallery.ReloadLeavesTwelveHidden | Gallery.ReloadCorrected |
| assets/js/i18n.js:103-107 | after a click, the document's `lang` is set to the clicked language even when its file failed and the page fell back to Romanian | no stored preference, only the Romanian file loads, one click on the switcher: Romanian text under `lang="en"` | the document language is the language in effect, as start-up sets it (assets/js/i18n.js:29) | medium, not executed | I18n.ToggleAsWrittenMislabels | I18n.Toggle |

## Left out

- Network, storage and downloads: `fetch` and JSON parsing, `localStorage`, and the Blob/object-URL download. Loaded data, fetch outcomes and the stored preference are inputs.
- HTML assembly: `innerHTML` strings, CSS classes and styles other than the modelled flags, and `alert`. Cells, entries and lines are sequences. Titles and descriptions are inserted into the HTML unescaped, and HTML escaping is not modelled.
- Day list text: the alert text of the day list and its `formatDate` line are not modelled. Only the list of events it shows is.
- Timers: the simulated delay before a batch appears, the fade-in stagger, the screen-reader announcement and its removal, the resize debounce, the lightbox's delayed close-button focus, and `window.debounce`. Each handler is one atomic step.
- Gallery "loading" state: the disabled button and its "loading" text are not modelled. They only exist between the click and the delayed step.
- `Date.now()`: the export's UID time stamp is a parameter, one reading per event.
- Dates.ParseIsoDate: reads `YYYY-MM-DD` as a calendar day with no time zone. JavaScript parses it as UTC midnight and reads month and day in local time, so in zones west of UTC the browser can see the previous day. Other text JavaScript accepts as a date (with a time, or without padding) is treated as invalid.
- Events.SortByDate: events whose date does not parse sort after all valid dates; JavaScript compares NaN and leaves that order to the engine. The stability of the sort is not stated.
- Ics.ExportToIcs: lines end in a bare line feed, not the CRLF of section 3.1 of RFC 5545, and long lines are not folded. This matches the code.
- Ics.IcsDateOfIso: stated for four-digit years only. Shorter years print without padding and do not form an 8-digit DATE.
- MonthGrid.ConsecutiveGridsTile: requires years from 100 on, because the Date constructor reads years 0..99 as 1900..1999.
- Gallery↔lightbox coupling: the gallery calls `window.updateLightboxImages` and `window.openLightbox`, which the lightbox never defines. The lightbox takes its image list once, when the page loads. The two are modelled separately.
- Repeated listeners: each gallery reload runs `initGallery` again and adds another click listener to the button and another resize listener. After a reload, one click loads the same batch twice. Only a single listener is modelled.
- Focus-trap listeners: each lightbox opening adds another focus-trap listener. Only the wrap rule is modelled.
- I18n.Step: descending through a string leaf fails the lookup. JavaScript would index into the string and could return a single character. Inherited object members are not found either (next line).
- I18n.LookupSimple: a key that names a member every JavaScript object inherits (`constructor`, `toString`, `__proto__` and the like) is missing unless the group defines it. JavaScript finds the inherited member, a function, and writes its source text into the page.
- PageChrome.AnchorClick: a link whose `href` is not a valid CSS selector, such as `#2025`, makes `querySelector` throw; the handler stops and the browser follows the link without the 80-pixel offset. The model treats it as a link without a target.
- PageChrome.HandleTrigger: only the script's own `focus()` call is modelled, not focus moved by the browser itself.
- Text.ParseInt: reads exact integers. JavaScript returns a double, so very long digit runs lose precision; no such value can equal a month number 0..11, so the month filter is unaffected.
- I18n.Tree: translation values other than strings and nested groups (numbers, arrays) are not modelled.
- Lightbox.NextIndex: with no images JavaScript computes NaN. The model keeps the index; the overlay cannot open without images anyway.
- Gallery.Image: a missing JSON field is its falsy value (empty text, zero size).
- Events.Event: `title` and `type` are always text. An event missing one of them makes `escapeICS` throw on `undefined` during the export, which the model does not represent.
- Lightbox.FocusStaysInside: assumes that Tab and Shift+Tab move along the trap's list of focusable elements. The list also holds the previous and next buttons while they are hidden (one image), and the browser skips hidden elements, so with a hidden button at an end of the list the wrap never fires and Tab leaves the overlay.
- Lightbox.TabShiftTabInverse: rests on the same assumption about the focus order.
- Lightbox.Open: the click that opens the lightbox also reaches the page's outside-click handler for the mobile menu, which clears `document.body.style.overflow` after the lightbox set it to `hidden`. So on pages with the menu, scrolling is not actually locked. The two scripts are modelled separately and `bodyLocked` records only the lightbox's own write.
- Positions are integers: viewport widths, scroll offsets and touch coordinates, which the browser gives as floating point.
- `assets/js/seo.js` and `assets/js/expandable.js` are not part of this model. The first sets meta tags and JSON-LD; the second toggles one CSS class.
