# irunmag race calendars, modelled in Dafny

The repository scrapes race listings from irunmag.gr and writes them out as
iCalendar files. Three scripts do this:

- `irun_calendar_to_ics.py` (the 2026 part, from line 130): the Greek race
  calendar. `h4` headings that name a weekday carry a Greek date such as
  "Κυριακή 4 Ιανουαρίου 2026"; every `li` of a `ul` that follows a parsed
  heading is one race on that date.
- `scripts/irun_world_marathons_to_ics.py`: the world marathons page. `h2`
  month headers clear the current date. Paragraphs whose first bold text
  mentions "2026" are date lines: they set the date when it parses, keep
  the old one when no Greek date is found, abort the scrape when the date
  does not exist, and never yield a race themselves. Any other paragraph
  with a link and an emphasis, met under a date, is one race.
- `irun_world_marathons_to_ics.py`: a flat scraper in which every
  `ul li` whose first `dd/mm/yyyy` names a real day is one race; an entry
  whose first such date does not exist is skipped, even when a later one
  does.

Each script then turns its races into all-day calendar events whose
description is the title, the location and the link on three lines.

The model, one module per concern:

| file | module | what it holds |
|---|---|---|
| `optional.dfy` | `Optional` | `Option` |
| `text.dfy` | `Text` | the Python `str` operations used: `isspace`, `strip`, `split`, `in`, `int` |
| `dates.dfy` | `Dates` | dates as `datetime` accepts them (Gregorian, years 1..9999) |
| `html.dfy` | `Html` | a parsed element as the scrapers query it; `.text` and `get_text(sep, strip=True)` |
| `greek_date.dfy` | `GreekDate` | `GREEK_MONTHS`, `DATE_RE` and `parse_date` (the same in both Greek-date scripts) |
| `numeric_date.dfy` | `NumericDate` | the `dd/mm/yyyy` search and `datetime(year, month, day)` of the flat scraper |
| `calendar.dfy` | `Calendar` | the race record and the event loop of `create_ics` |
| `scanning.dfy` | `Scanning` | the pass that both heading-driven scrapers make: date in force, races appended, `ValueError` aborting |
| `greece_calendar.dfy` | `GreeceCalendar` | `scrape()` of `irun_calendar_to_ics.py` |
| `world_marathons.dfy` | `WorldMarathons` | `scrape()` of `scripts/irun_world_marathons_to_ics.py` |
| `flat_marathons.dfy` | `FlatMarathons` | `scrape_world_marathons()` of `irun_world_marathons_to_ics.py` |

Both heading-driven scrapers are modelled twice over: as a `method Scrape`
with the source's loop, `continue`s and early exit, and as the pass
`Scanning.Run` over what each element does (`Classify`). The method's
postcondition ties its result to the pass, and the lemmas say what the pass
computes. A `ValueError` from `strptime` is not caught in those two scripts,
so the model's `Scrape` returns `Raised` and no races. The flat scraper's
`Scrape` is proved equal to `Collect`, which keeps the record of each entry
that yields one, in order.

Regular expressions are modelled by position. A predicate (`IsDateMatch`,
`IsSlashMatch`, `IsParenMatch`) says what a match at a position is. A
function (`MatchAt`, `ParenAt`) plays the engine at one position. A lemma
shows the function finds every match there is. A recursive `Search` returns
the leftmost match. The character classes next to each other in these
patterns are disjoint (digits, white space, Greek letters; `/`), so greedy
runs never need to backtrack and each position has at most one match.

Details of the code that the model follows exactly:

- The Greek calendar's title is taken from the first `em` when there is
  one, even when it is empty, then from the first linked `a`, then from the
  whole entry. It is not the longest emphasis or the last link.
- The Greek calendar's location is the whole first parenthesised group: "Athens, 10k" stays as is.
  Only the `scripts/` world-marathons scraper cuts at the first comma.
- An `h4` with a weekday whose date does not parse keeps the current date; it does not reset it.
- No end dates and no multi-day ranges are computed: every event begins on
  the race's date and is made all-day, with no end set.
- Entries with an empty title are kept.

## Model

| member | source | states |
|---|---|---|
| GreekDate.MonthNumber | irun_calendar_to_ics.py:141-154 | a word has a month exactly when it is one of the twelve genitive names; the month is 1..12 and the name sits at that position of the table |
| GreekDate.MonthNumberOfName | irun_calendar_to_ics.py:141-154 | each of the twelve names maps back to its own month (the names are distinct) |
| GreekDate.MatchAt | irun_calendar_to_ics.py:156 | what the engine finds at a position is a DATE_RE match there: 1-2 digits, white space, Greek letters, white space, 4 digits |
| GreekDate.MatchAtComplete | irun_calendar_to_ics.py:156 | every DATE_RE match at a position is the one the engine finds: the match at a position is unique |
| GreekDate.Search | irun_calendar_to_ics.py:160 | the match returned is a DATE_RE match, and none starts earlier |
| GreekDate.SearchFindsLeftmost | irun_calendar_to_ics.py:160 | given the leftmost match of a text, the search returns exactly it |
| GreekDate.Convert | irun_calendar_to_ics.py:163-167 | once the match is fixed: None exactly when the word is not a table key; a parsed date is real and has the table's month; the ValueError only when day, month and year form no real date |
| GreekDate.ParseGreekDate | irun_calendar_to_ics.py:158-167 | a date returned is always a real calendar date |
| GreekDate.ParseWithoutMatch | irun_calendar_to_ics.py:160-162 | a text with no DATE_RE match yields None |
| GreekDate.ParseFirstMatch | irun_calendar_to_ics.py:158-167 | only the first match counts: an unknown month word yields None; a known one yields that day, month and year if they form a real date, and the ValueError otherwise |
| GreekDate.ParseHeading | irun_calendar_to_ics.py:158-167 | a heading made of digit-free text, a day, white space, a Greek word, white space, a year and anything after parses to exactly what that first date says |
| GreekDate.SundayHeadingParses | irun_calendar_to_ics.py:158-167 | "Κυριακή 4 Ιανουαρίου 2026" parses to 4 January 2026 |
| GreekDate.ThirtyFirstOfAprilRaises | irun_calendar_to_ics.py:167 | "31 Απριλίου 2026" makes strptime raise |
| GreekDate.TwentyNinthOfFebruaryRaises | irun_calendar_to_ics.py:167 | "29 Φεβρουαρίου 2026" raises even when a valid date follows it in the text |
| GreekDate.NominativeMonthIsNoDate | irun_calendar_to_ics.py:163-166 | a nominative month name is not in the table, so the result is None even when a genitive date follows |
| Dates.DaysInMonth | irun_calendar_to_ics.py:167 | months have 28 to 31 days: 28 exactly for February of a common year, 29 exactly for February of a Gregorian leap year, 30 exactly for April, June, September and November, 31 exactly for the other seven |
| NumericDate.MatchAt | irun_world_marathons_to_ics.py:29 | what the engine finds at a position is a `(\d{1,2})/(\d{1,2})/(\d{4})` match there |
| NumericDate.MatchAtComplete | irun_world_marathons_to_ics.py:29 | every match at a position is the one the engine finds |
| NumericDate.Search | irun_world_marathons_to_ics.py:29 | the match returned is a match, and none starts earlier |
| NumericDate.ParseSlashDate | irun_world_marathons_to_ics.py:29-37 | a date returned is always a real calendar date |
| NumericDate.ParseFirstMatch | irun_world_marathons_to_ics.py:29-37 | only the first `dd/mm/yyyy` counts: the entry gets exactly its date when it is a real day, and is skipped otherwise |
| NumericDate.ParseWithoutMatch | irun_world_marathons_to_ics.py:29-31 | with no match the entry is skipped |
| NumericDate.ParseEntryDate | irun_world_marathons_to_ics.py:29-37 | an entry of digit-free text, `d/m/yyyy` and anything after gets that date when it exists and is skipped otherwise |
| NumericDate.LaterRealDateIgnored | irun_world_marathons_to_ics.py:29-37 | "Race 31/04/2026 or 01/05/2026" is skipped: the first date raises and the later real one is never tried |
| Text.Strip | irun_calendar_to_ics.py:213 | `strip()` leaves no white space at either end, and gives the empty string exactly for all-white-space text |
| Text.StripIsSlice | irun_calendar_to_ics.py:213 | only white space is removed: `strip()` is the slice `s[a..b]` where everything before `a` and from `b` on is white space |
| Text.Before | irun_calendar_to_ics.py:213 | `split(c)[0]` is the longest prefix without `c`; it is shorter than the text exactly when `c` occurs, and then `c` follows it |
| Text.After | irun_calendar_to_ics.py:213 | `split(c, 1)[1]` is what follows the first `c`: the text is `Before + c + After` |
| Text.BeforeAfterUnique | irun_calendar_to_ics.py:213 | splitting `a + c + b` at its first `c`, when `a` has no `c`, gives back `a` and `b` |
| Text.Split | irun_world_marathons_to_ics.py:46 | the first piece of `split(c)` is the text before the first `c`, and a text without `c` is its own only piece |
| Text.SplitPieces | irun_world_marathons_to_ics.py:46 | `split(c)` gives one more piece than there are `c`s, and no piece holds `c` |
| Text.SplitCons | irun_world_marathons_to_ics.py:46 | splitting `a + c + b`, when `a` has no `c`, is `a` followed by the pieces of `b` |
| Text.ParenGroupIsSplit | irun_calendar_to_ics.py:213 | `text.split("(", 1)[1].split(")")[0]` is the text from the first `(` to the next `)` |
| Text.Value | irun_world_marathons_to_ics.py:33 | `int()` of a string of n decimal digits is below 10^n |
| Text.StripUnchanged | irun_calendar_to_ics.py:213 | text with no white space at either end is its own `strip()` |
| Text.Contains | irun_calendar_to_ics.py:184 | `t in s` holds exactly when `t` occurs at some position of `s` |
| Html.AllText | irun_calendar_to_ics.py:184-185 | `.text` begins with the first string, and is empty exactly when every string is empty |
| Html.StrippedStrings | irun_calendar_to_ics.py:211 | the strings `get_text(strip=True)` keeps are non-empty and have no white space at either end |
| Html.GetText | irun_calendar_to_ics.py:201-211 | `get_text(sep, strip=True)` never starts or ends with white space, whatever `sep` is, and is empty exactly when no string survives stripping |
| Html.StrippedStringsOne | irun_calendar_to_ics.py:211 | one string contributes its stripped form, or nothing when it is all white space |
| Html.StrippedStringsAppend | irun_calendar_to_ics.py:211 | the strings are stripped one by one, in order: the result for `a + b` is the result for `a` followed by the result for `b` |
| Html.StrippedStringsEmpty | irun_calendar_to_ics.py:208 | no string survives stripping exactly when every string is all white space |
| Calendar.Description | irun_calendar_to_ics.py:236 | the description starts with the title and ends with the link, and is 23 characters longer than the three fields together (the two labels and two newlines) |
| Calendar.DescriptionLines | irun_calendar_to_ics.py:236 | read back line by line, an event's description gives the title, "Location: " and the location, "More info: " and the link |
| Calendar.CreateEvents | irun_calendar_to_ics.py:227-237 | (the same loop is at scripts/irun_world_marathons_to_ics.py lines 110-125 and irun_world_marathons_to_ics.py lines 67-80) one event per race, in race order: named after the title, beginning on the race's date, all day, with its location, link and three-line description |
| Scanning.Run | irun_calendar_to_ics.py:181-222 | a pass that does not raise never has fewer races than it started with |
| Scanning.RaisesIff | irun_calendar_to_ics.py:181-188 | a pass raises exactly when some element parses to a date that does not exist |
| Scanning.DateInForce | irun_calendar_to_ics.py:181-188 | after a pass the date in force is the one set by the last element that changed it, or the starting one when none did |
| Scanning.RacesEmitted | irun_calendar_to_ics.py:191-222 | a pass only appends races, and every race it adds was emitted by some element for the date in force when that element was reached |
| Scanning.RunPair | irun_calendar_to_ics.py:181 | a pass over two elements runs the loop body on the first, then on the second unless the first raised |
| Scanning.RunAppend | irun_calendar_to_ics.py:181 | a pass over `a + b` is a pass over `a` and then over `b` from where it left off |
| Scanning.RaisedPrefix | irun_calendar_to_ics.py:185 | once a prefix has raised, the whole pass has raised |
| Scanning.LatestChangeExists | irun_calendar_to_ics.py:181-188 | where some element changes the date, there is a last one that does |
| GreeceCalendar.Title | irun_calendar_to_ics.py:198-208 | the title is the stripped text of the entry's `em` when it has one, else of its linked `a`, else of the whole entry; it has no white space at either end, and taken from the whole entry it is empty exactly when the entry has no visible text |
| GreeceCalendar.Url | irun_calendar_to_ics.py:199-206 | the link is the entry's first `a` href when it has one (whether or not there is an `em`), and empty otherwise |
| GreeceCalendar.Location | irun_calendar_to_ics.py:211-215 | without both `(` and `)` the location is "Unknown"; otherwise it holds no `)` |
| GreeceCalendar.FirstGroup | irun_calendar_to_ics.py:213 | what `text.split("(", 1)[1].split(")")[0]` gives holds no `)` |
| GreeceCalendar.EntryRace | irun_calendar_to_ics.py:196-222 | an entry's record is on the date in force; its title is the `em`-then-`a`-then-entry title, its location is found in the entry's text joined with spaces, and its url is the `a` href or empty (`url or ""`) |
| GreeceCalendar.ListRaces | irun_calendar_to_ics.py:192-222 | the inner loop yields one race per `li`, in order, each on the current date, with title, location and link chosen as the code chooses them |
| GreeceCalendar.Scrape | irun_calendar_to_ics.py:169-225 | the loop with its `continue`s returns the races of the pass, and raises exactly when the pass does |
| GreeceCalendar.LocationIsFirstGroup | irun_calendar_to_ics.py:211-215 | the location is the stripped text from the first `(` to the next `)` (to the end when only an earlier `)` exists), and "Unknown" without a `)` |
| GreeceCalendar.ScrapeRaisesIff | irun_calendar_to_ics.py:184-185 | the scrape raises exactly when some weekday heading names a date that does not exist |
| GreeceCalendar.DateInForceAfter | irun_calendar_to_ics.py:184-188 | the current date is the date of the last weekday heading that parsed, and absent before any has |
| GreeceCalendar.RaceProvenance | irun_calendar_to_ics.py:181-222 | every race is the record of an entry of some `ul`, dated with the last heading that parsed before that list |
| GreeceCalendar.RacesNeedADate | irun_calendar_to_ics.py:191 | a page yields races only if some weekday heading on it parses |
| GreeceCalendar.ListStep | irun_calendar_to_ics.py:191-222 | a `ul` before any date yields nothing; under a date each of its `li` yields exactly one race on that date, appended in order, and the date is kept |
| GreeceCalendar.HeadingThenListYieldsOne | irun_calendar_to_ics.py:181-222 | a weekday heading that parses, then a `ul` with one `li` holding an `em` and a linked `a`, scrape to exactly one race: the `em` text as title, that date, the location of the entry's text, the `a` href |
| GreeceCalendar.HeadingThenList | irun_calendar_to_ics.py:181-222 | a weekday heading that parses, then a `ul`, scrape to the records of that list's entries on that date, in order |
| GreeceCalendar.LocationIsWholeGroup | irun_calendar_to_ics.py:211-215 | a first parenthesised group with no white space at its ends is the location whole, commas included |
| GreeceCalendar.LocationKeepsCommas | irun_calendar_to_ics.py:211-215 | "X (A, B)" is located at "A, B" |
| GreeceCalendar.ListUnderLatest | irun_calendar_to_ics.py:181-222 | a list emitting under the date set by the last heading that parsed before it sources its records from that heading |
| GreeceCalendar.HeadingStep | irun_calendar_to_ics.py:184-188 | an `h4` naming a weekday sets the date when it parses, keeps it when no date is found, and raises when the date does not exist; other `h4`s change nothing |
| WorldMarathons.RaceOf | scripts/irun_world_marathons_to_ics.py:83-101 | a race line's record is on the date in force, titled with its `em` text stripped, located by the line's text joined with no separator, and linked to its `a`'s href |
| WorldMarathons.Location | scripts/irun_world_marathons_to_ics.py:91-95 | the location is "Unknown" unless the text has both `(` and `)`, and otherwise never holds a comma |
| WorldMarathons.Scrape | scripts/irun_world_marathons_to_ics.py:48-105 | the loop with its `continue`s returns the races of the pass, and raises exactly when the pass does |
| WorldMarathons.LocationIsFirstField | scripts/irun_world_marathons_to_ics.py:91-95 | the location is the stripped text from the first `(` up to the next `)` or first comma before it, and "Unknown" without a `)` |
| WorldMarathons.ScrapeRaisesIff | scripts/irun_world_marathons_to_ics.py:68-70 | the scrape raises exactly when some bold "2026" line names a date that does not exist |
| WorldMarathons.DateInForceAfter | scripts/irun_world_marathons_to_ics.py:63-73 | the current date is cleared when an `h2` came last, is the date of the last parsed date line when that came last, and is absent when neither has been met |
| WorldMarathons.RaceProvenance | scripts/irun_world_marathons_to_ics.py:60-102 | every race is the record of a race line, dated with the last date line before it, with no month header in between |
| WorldMarathons.HeaderAndDateLinesYieldNothing | scripts/irun_world_marathons_to_ics.py:63-73 | month headers and date lines never add a race, and a month header clears the date |
| WorldMarathons.RaceLineStep | scripts/irun_world_marathons_to_ics.py:76-102 | a race line under a date adds exactly its one record on that date; without a date it adds nothing; the date is kept |
| WorldMarathons.LocationIsFirstOfGroup | scripts/irun_world_marathons_to_ics.py:91-95 | a first parenthesised group whose first comma-separated field has no white space at its ends is located at that field |
| WorldMarathons.LocationDropsLaterFields | scripts/irun_world_marathons_to_ics.py:91-95 | "X(A, B)" is located at "A" |
| WorldMarathons.DateLineThenRaceLine | scripts/irun_world_marathons_to_ics.py:60-102 | a date line that parses, then a race line, scrape to exactly one race: the `em` text as title, that date, the location of the line's text, the `a` href |
| WorldMarathons.OtherLineStep | scripts/irun_world_marathons_to_ics.py:76-81 | a paragraph lacking the link or the emphasis changes nothing |
| FlatMarathons.ParenAt | irun_world_marathons_to_ics.py:44 | what the engine finds at a position is a `\(([^)]+)\)` match there, and when it finds none there is none |
| FlatMarathons.ParenMatchUnique | irun_world_marathons_to_ics.py:44 | a group's `)` is determined by its `(` |
| FlatMarathons.ParenSearch | irun_world_marathons_to_ics.py:44 | the group returned is a match at or after the start |
| FlatMarathons.ParenSearchLeftmost | irun_world_marathons_to_ics.py:44 | the search finds a group at or before every group there is |
| FlatMarathons.Scrape | irun_world_marathons_to_ics.py:25-59 | the loop with its `continue`s returns exactly the collected records of the entries, in order |
| FlatMarathons.Title | irun_world_marathons_to_ics.py:40 | the title never holds a `(` |
| FlatMarathons.Location | irun_world_marathons_to_ics.py:43-48 | when the search finds no parenthesised group, the location is "Unknown" |
| FlatMarathons.GroupLocation | irun_world_marathons_to_ics.py:46-48 | a group without a comma gives "Unknown"; otherwise the field kept holds no comma |
| FlatMarathons.Link | irun_world_marathons_to_ics.py:51-52 | the link is the entry's `a` href, or the page URL when the entry has no such `a` |
| FlatMarathons.EntryRace | irun_world_marathons_to_ics.py:26-59 | a record an entry yields is on a real day |
| FlatMarathons.Collect | irun_world_marathons_to_ics.py:25-59 | there are never more races than entries |
| FlatMarathons.TitleBeforeParen | irun_world_marathons_to_ics.py:40 | the title is the stripped text before the first `(`, and the whole stripped text when there is no `(` |
| FlatMarathons.LocationSecondField | irun_world_marathons_to_ics.py:43-48 | with a comma in the first group, the location is the stripped text between its first comma and the next comma or the group's end |
| FlatMarathons.LocationWithoutComma | irun_world_marathons_to_ics.py:43-48 | with no comma in the first group, the location is "Unknown" |
| FlatMarathons.LocationWithoutGroup | irun_world_marathons_to_ics.py:43-45 | with no non-empty parenthesised group, the location is "Unknown" |
| FlatMarathons.EntryKeptIff | irun_world_marathons_to_ics.py:26-59 | an entry is kept exactly when its first `dd/mm/yyyy` names a real day, and then its race has that date, the title, the location and the link |
| FlatMarathons.EntrySkippedWithoutDate | irun_world_marathons_to_ics.py:29-31 | an entry with no `dd/mm/yyyy` is skipped |
| FlatMarathons.EntryRaceWellFormed | irun_world_marathons_to_ics.py:33-52 | every race is on a real day, and links to the entry's own `a` or else to the page |
| FlatMarathons.CollectAppend | irun_world_marathons_to_ics.py:25-59 | entries are handled one at a time: collecting `a + b` is collecting `a`, then `b` |
| FlatMarathons.CollectExactly | irun_world_marathons_to_ics.py:25-59 | at most one race per entry; every race is the record of some entry, and every entry that yields a record contributes it |
| FlatMarathons.CollectAllKept | irun_world_marathons_to_ics.py:25-59 | when every entry is kept, the races are the entries' records in document order |

## Left out

- The HTTP fetch (`requests.get`, `raise_for_status`) and HTML parsing: the model starts from the elements the parser's queries return.
- The missing-container `RuntimeError` of both heading-driven scrapers: the model starts after the container is found.
- Tree search (`find_all`, `find`, `select`) is done by the parser. An element arrives with its tag, its strings, its first `em`, `strong` and linked `a`, and, for a `ul`, its `li`s. Elements that `find_all` yields twice (a `ul` nested in a `ul`) are simply given twice.
- The `ics` library: the model stops at the fields set on each event. Serialisation, the `set` that holds events (its order in the file) and the file write are not modelled.
- `print` calls and the `__main__` blocks.
- Lines 1-124 of `irun_calendar_to_ics.py`: the 2025 version, entirely commented out, so dead code.
- `\d` matching non-ASCII decimal digits: the model reads ASCII digits only.
- `%B` is read in an English or C locale, where the English month names of `GREEK_MONTHS` parse.
- `create_ics` appears three times with the same event loop; `Calendar.CreateEvents` models it once.
- The `datetime` to `.date()` conversion of `begin`: the model's dates carry no time of day to drop.
