# igdb-next-month, modelled in Dafny

igdb-next-month lists the video games released in the next calendar month.
It asks the IGDB catalog for the games released in that month. The server
(`server.js`) flattens the records into rows for a browser table
(`public/app.js`). A console script (`next-month.js`) prints the same
games grouped by day.

This project models the deterministic core of the three files and proves
what that core promises:

- **The release window.** `getDateRangeUnixForNextMonth` (`server.js`) and
  `getDateRangeUnix` (`next-month.js`) compute the same two Dates and the
  same two second counts (server.js:38-53 and next-month.js:34-50); only the
  server version also returns the two Dates. Both are one model,
  `ReleaseWindow.NextMonthRange`, whose result carries all four values.
  It is written over JavaScript's own `Date` semantics (`JsDate`): the
  multi-argument constructor with its month overflow and its two-digit-year
  rule, TimeClip to an Invalid Date, `getFullYear`, `getMonth`, and seconds
  by floor division. Days are converted to and from the civil calendar by
  `Civil`. Local time is taken to be UTC.
- **The row normaliser.** `transformGamesForUi` is the imperative method
  `Server.TransformGamesForUi`: a push loop, then a stable sort by the ISO
  date string. The first half of `formatGames` is the push loop of
  `NextMonth.FormatGames`, followed by a stable sort by instant. Both share
  the record model and its truthiness rules, the platform summary (with
  different placeholders) and the cover URL (`Catalog`). Both sorts are
  `StableSort.Sort`, an insertion sort by "comparator result <= 0".
- **Day grouping.** The "header when the day key changes" loop appears in
  the listing loop of `formatGames` (`NextMonth.PrintDays`) and in
  `renderTable` (`App.Page.RenderTable`). Both are proved against one
  specification, `Grouping.Grouped`, whose lines are `Header(text)` or
  `Body(item)`.
- **The browser page.** `App.Page` holds the status text, the table's
  display style, the stored rows (`window.__allGames`) and the table body
  as fields. `fetchReleases` becomes `FetchReleases`, which takes the
  response that arrived as a parameter. The platform filter's listener
  becomes `OnFilterInput`, which takes the typed input.

Where JavaScript behaviour matters, it is written out:

- `toISOString().slice(0, 10)` writes a year outside 0..9999 as `±YYYYYY-MM`.
- A timestamp outside the range of valid dates makes `toISOString` throw a
  RangeError. In the server this surfaces as `Failure(RangeError)`. In the
  console listing it is the outcome `Thrown`.
- `a.date - b.date` with an Invalid Date on either side is NaN, which the
  sort treats as 0.
- `${name}` writes an absent name as `undefined`.
- `String.prototype.trim` removes the ECMAScript white-space and
  line-terminator characters.
- The calls to `toLocaleDateString` are the parameter `humanDate`, a
  function of the instant.

## Model

| member | source | states |
|---|---|---|
| ReleaseWindow.NextMonthRange | server.js:35-56 | the window for a clock reading: `new Date(getFullYear(), getMonth() + 1, 1)`, the same again from that Date, and the whole seconds of both (next-month.js:30-53 computes the same fromUnix and toUnix); WindowBounds, WindowSeconds, WindowOrdered and WindowFinite state what it gives |
| JsDate.NewDate | server.js:38-43 | the multi-argument Date constructor at midnight: NaN in, NaN out; otherwise MakeFullYear, month overflow and TimeClip; NewDateOfNextMonth states it for the calls of the window |
| JsDate.GetFullYear | server.js:46 | the UTC year of a time value, NaN for NaN; ReadBack states it for a midnight |
| JsDate.GetMonth | server.js:47 | the 0-based UTC month of a time value, NaN for NaN; ReadBack states it for a midnight |
| JsDate.UnixSeconds | server.js:52-53 | `Math.floor(t.getTime() / 1000)`, NaN for NaN; MidnightSeconds states it for a midnight |
| JsDate.IsoDayKey | server.js:115 | `toISOString().slice(0, 10)` of a valid time value; IsoDayKeyParses and ExpandedKeyParses give its layout |
| Catalog.HasReleaseDate | server.js:105 | `first_release_date` is present and not 0, the records both loops keep; UndatedRecordIgnored and UndatedEntryIgnored state its effect |
| Catalog.PlatformLabel | server.js:119 | the abbreviation when truthy, or else the name, as join writes `p.abbreviation` or `p.name`, "" for an absent name; Labels applies it to every platform |
| Catalog.PlatformSummary | server.js:117-121 | the labels joined by ", " or the placeholder; PlatformSummaryShape gives its layout |
| Catalog.CoverUrl | server.js:125-129 | the templated cover URL when `cover.image_id` is truthy, null otherwise; CoverUrlRoundTrip is its inverse |
| Server.ToRow | server.js:131-138 | the row pushed for one dated record; RowFields and RowDateReadsBack state its fields |
| Server.PushedRows | server.js:104-139 | the rows the loop pushes, in order; PushedRowsAreKeptRecords states which |
| Server.DateLe | server.js:141 | the comparator `a.date < b.date ? -1 : a.date > b.date ? 1 : 0` is at most 0; DateLeIsTotalPreorder and SameRankIsSameDate state its properties |
| StableSort.Sort | server.js:141 | the stable sort `Array.prototype.sort` performs, as insertion sort by "comparator result <= 0"; SortPermutes, SortSorted and SortStable state it |
| Text.Less | server.js:141 | `a < b` on strings; LessTotal, LessTransitive, LessAsymmetric and LessIrreflexive make it a strict total order |
| NextMonth.ToEntry | next-month.js:106-126 | the row pushed for one dated record, with the date clipped to NaN when out of range; PushedEntriesDates states its date |
| NextMonth.PushedEntries | next-month.js:103-127 | the rows the loop pushes, in order; PushedEntriesCount, PushedEntriesConcat and UndatedEntryIgnored state which |
| NextMonth.TimeLe | next-month.js:129 | the comparator `a.date - b.date` is at most 0, a NaN difference counting as 0; SortByInstant equates it with instant order on valid dates |
| NextMonth.DayKey | next-month.js:138 | `row.date.toISOString().slice(0, 10)` of a valid date; IsoDayKeyInjective and IsoDayKeyConvex state what it fixes |
| NextMonth.HeaderText | next-month.js:142 | the day header `\n=== humanDate ===` |
| NextMonth.Bullet | next-month.js:145 | the bullet line `• name (platforms)`, an absent name written `undefined` |
| Grouping.Grouped | next-month.js:136-146 | the header-when-the-key-changes listing; GroupedItems, HeaderPrecedesExactly and OneGroupPerKey state its layout |
| App.Query | public/app.js:96 | the input trimmed and lower-cased; TrimLower and QueryIgnoresCase state its properties |
| App.Matches | public/app.js:104-106 | a row matches when its lower-cased platforms include the query; FilterShowsMatches states it |
| App.FilterGames | public/app.js:96-108 | the rows shown for an input: all of them for an empty query, else the matching ones; BlankQueryShowsAll, FilterShowsMatches, FilterKeepsOrder and FilterIsIdempotent state it |
| App.CoverOf | public/app.js:63-74 | an image with the row's cover URL and the alt text `${name} cover` when the URL is truthy, else a dash; CoverShownForRecord states it for server rows |
| App.GameCells | public/app.js:55-89 | the four cells of a game row: blank, cover, name (empty when absent) and platforms; TableLayout places them |
| App.StatusLine | public/app.js:23 | `Showing n games. (label)`; ModeLabel and DecimalRoundTrip state its parts |
| Text.Lower | public/app.js:96 | `toLowerCase` on the ASCII letters, which keeps the length; LowerTwice states its idempotence |
| Civil.DaysFromCivil | server.js:38-43 | the day number (days since 1970-01-01) of a calendar date, MakeDay's day count in the proleptic Gregorian calendar; CivilFromDays and CivilRoundTrip make it a bijection onto valid dates, DaysFromCivilIncreasing makes it order-preserving |
| Civil.CivilRoundTrip | server.js:115 | a valid date's day number converts back to that date |
| Civil.DaysFromCivilIncreasing | server.js:38-50 | a date earlier in the calendar has a smaller day number |
| JsDate.DateOf | server.js:46-47 | the UTC calendar date of a time value, Day(t) by floor division by 86400000 ms; DayOfDateStart states it for a midnight |
| JsDate.ConstructorYear | server.js:39 | MakeFullYear of the Date constructor: a year 0..99 means 1900..1999; NextCalendarMonth states when it plays no part |
| JsDate.MonthStart | server.js:40-41 | day 1 of a month index after the constructor's overflow, month 12 being January of the next year; its contract states it is a valid first day |
| JsDate.IsValidTime | server.js:107 | a time value within 8.64e15 ms of the epoch, the range TimeClip keeps |
| ReleaseWindow.ConstructedNextMonth | server.js:38-43 | the date `new Date(year, month, 1)` denotes for the current 0-based month + 1, a valid first day by its contract |
| ReleaseWindow.Midnight | server.js:38-50 | the time value of 00:00 UTC of a date, or NaN outside JavaScript time; MidnightSeconds gives its seconds |
| ReleaseWindow.MidnightSeconds | server.js:52-53 | the Unix seconds of a valid midnight are 86400 times its day number, and times 1000 give the instant back |
| Catalog.IsTruthy | server.js:126 | a string value is truthy when present and not "" |
| Catalog.Interpolated | public/app.js:67 | a template literal writes an absent value as `undefined` (also in the bullet line of next-month.js:145) |
| Catalog.ReleaseMs | server.js:107 | `first_release_date * 1000` |
| Catalog.HasPlatforms | server.js:117 | `game.platforms && game.platforms.length` is truthy |
| Catalog.HasCoverImage | server.js:126 | `game.cover && game.cover.image_id` is truthy; CoverUrlRoundTrip states its effect |
| Server.Throws | server.js:115 | a dated record whose instant is no valid time value, for which `toISOString` throws; TransformGamesForUi fails exactly on these |
| NextMonth.Throws | next-month.js:138 | a dated record whose instant is no valid time value, for which `toISOString` throws in the listing loop; FormatGames gives Thrown exactly on these |
| NextMonth.HumanDate | next-month.js:108-112 | `toLocaleDateString` of the entry's Date: "Invalid Date" for an Invalid Date, the opaque parameter otherwise; PushedEntriesDates states when the date is invalid |
| NextMonth.LineText | next-month.js:140-145 | a console line: the header text for a header, the bullet for a body |
| NextMonth.Render | next-month.js:136-146 | the console lines of a grouped listing, one per line; PrintDays prints it |
| Seqs.Filter | public/app.js:104-106 | `Array.prototype.filter`: its contract states the result is no longer and holds exactly the elements that pass, in order by FilterConcat |
| Seqs.FilterConcat | public/app.js:104-106 | filtering distributes over concatenation, so the input order is kept |
| Seqs.Map | server.js:118-119 | `Array.prototype.map`: its contract states one result per element, at the same index |
| Text.Join | server.js:120 | `xs.join(sep)`; JoinLayout gives where every element and separator stands |
| Text.Includes | public/app.js:105 | `s.includes(q)`: q occurs in s at some offset; FilterShowsMatches states the filter with it |
| Text.DecimalString | public/app.js:23 | `String(n)` of a count: by its contract at least one digit and only digits; DecimalRoundTrip reads it back |
| Text.Pad | server.js:115 | a zero-padded decimal field of `toISOString`: only digits by its contract; PadRoundTrip and PadLength state its value and width |
| Text.PadLength | server.js:115 | a number below 10^w padded to width w has exactly w digits |
| Text.IsTrimmable | public/app.js:96 | the WhiteSpace and LineTerminator characters of ECMA-262 sections 12.2 and 12.3 that `trim` removes |
| Text.LessAsymmetric | server.js:141 | `a < b` and `b < a` never both hold |
| Text.LessIrreflexive | server.js:141 | no string is `<` itself |
| App.TextContent | public/app.js:79 | setting `textContent` to an absent value leaves the cell empty |
| App.Table | public/app.js:32-91 | the table body `renderTable` builds: the day grouping of the rows by date, titled by humanDate, with their cells; TableLayout states its layout |
| App.RowDate | public/app.js:40 | the key `renderTable` compares with `currentDate`; SortedRowsContiguous states equal keys stand together in the server's order |
| JsDate.TimeClip | server.js:107 | `new Date(t * 1000)` is a valid date exactly when the instant is within 8.64e15 ms of the epoch, and then it is that instant |
| Civil.CivilFromDays | server.js:115 | the UTC calendar date of a day number is a valid date whose day number is that day |
| JsDate.IsoDayKeyParses | server.js:115 | for a four-digit year the key has 10 characters `YYYY-MM-DD`, dashes at 4 and 7, digits elsewhere, and the fields read back as the UTC year, month and day |
| JsDate.ExpandedKeyParses | server.js:115 | for other years the key is a sign, six digits of the year's magnitude, a dash and two digits of the month |
| JsDate.IsoDayKeyInjective | next-month.js:138 | equal keys mean equal year and month, and also equal day when the year has four digits |
| JsDate.IsoDayKeyConvex | next-month.js:138 | an instant between two instants with the same key has that key too |
| ReleaseWindow.NewDateOfNextMonth | server.js:38-43 | for m = getMonth() + 1 (1..12), `new Date(y, m, 1)` is midnight of day 1 of the month after the 1-based month m of year y (after the two-digit-year rule), December rolling into January of the next year |
| ReleaseWindow.ReadBack | server.js:46-47 | `getFullYear` and `getMonth` of a valid midnight give back that date's year and 0-based month |
| ReleaseWindow.WindowBounds | server.js:38-50 | for every clock reading the start is midnight of day 1 of the next month after the constructor's two-digit-year rule (a reading in the years 0..99 gives a start in 1900..2000; a December reading in year -1 starts on 0000-01-01 and ends on 1900-02-01), and the end is midnight of day 1 of the month after the start, after that rule again; an invalid start gives an invalid end |
| ReleaseWindow.NextCalendarMonth | next-month.js:34-47 | outside the years -1..99 (the two-digit-year rule) the window runs from day 1 of the next calendar month to day 1 of the month after it |
| ReleaseWindow.DecemberRollsOver | server.js:38-50 | in December of a year y outside the years -1..99 (the two-digit-year rule) the window is January 1 to February 1 of year y + 1 |
| ReleaseWindow.WindowSeconds | server.js:52-53 | fromUnix is 86400 times the day number of the first day of the next month, toUnix 86400 times that of the first day of the month after; each is NaN exactly when its Date is invalid, and an invalid start makes both NaN |
| ReleaseWindow.WindowOrdered | next-month.js:49-52 | when both bounds are numbers, fromUnix < toUnix, both are exact (times 1000 they are the instants) and both are whole days of 86400 s |
| ReleaseWindow.WindowFinite | server.js:36-53 | for every clock reading up to the end of year 275759 both bounds are numbers |
| Catalog.Labels | server.js:119 | one label per platform, the abbreviation when truthy and otherwise the name |
| Catalog.PlatformSummaryShape | server.js:117-121 | without platforms the summary is the placeholder; otherwise label i stands at the offset given by the lengths of the labels before it plus 2 for each, ", " follows every label but the last, and the summary ends with the last label |
| Text.JoinLayout | server.js:120 | `xs.join(sep)` holds element i at offset JoinOffset(xs, sep, i), sep after every element but the last, and nothing after the last |
| Catalog.CoverUrlRoundTrip | server.js:125-129 | the cover URL is present exactly when `cover.image_id` is truthy, and the image id reads back from between the fixed prefix and `.jpg` |
| Server.TransformGamesForUi | server.js:101-144 | fails (RangeError) exactly when some dated record has an invalid instant; otherwise returns the pushed rows stably sorted by date string |
| Server.PushedRowsAreKeptRecords | server.js:104-139 | the pushed rows are, in input order, exactly the row of each record with a truthy release date |
| Server.UndatedRecordIgnored | server.js:105 | a record with a falsy `first_release_date` contributes no row, whatever its other fields |
| Server.RowFields | server.js:109-138 | a row copies name and slug verbatim, carries the humanDate of its instant, the "Unknown"-placeholder platform summary and a cover URL exactly when the record has an image id |
| Server.RowDateReadsBack | server.js:107-115 | for a release instant in a year 0..9999, a row's date is `YYYY-MM-DD` of the UTC day of `first_release_date * 1000` (for other years JsDate.ExpandedKeyParses gives the `±YYYYYY-MM` form) |
| Server.DateLeIsTotalPreorder | server.js:141 | the date comparator is consistent (total and transitive), so the sort is well defined |
| Server.SameRankIsSameDate | server.js:141 | the comparator ranks two rows equal exactly when their dates are equal |
| Server.SortedOutput | server.js:141 | the output has one row per dated record, ascending by date string, is a permutation of the pushed rows, and keeps rows with equal dates in input order |
| StableSort.SortPermutes | server.js:141 | sorting neither adds nor loses rows |
| StableSort.SortSorted | server.js:141 | for a consistent comparator the result is in comparator order |
| StableSort.SortStable | server.js:141 | elements ranked equal keep their input order |
| StableSort.SortAgree | next-month.js:129 | comparators that agree on the elements being sorted sort them alike |
| Text.LessTotal | server.js:141 | two different strings are ordered one way or the other by `<` |
| Text.LessTransitive | server.js:141 | `<` on strings is transitive |
| Text.PadRoundTrip | server.js:115 | a zero-padded field still reads back as its number |
| NextMonth.FormatGames | next-month.js:100-147 | "No games found" exactly when no record has a truthy release date; a RangeError exactly when a dated record has an invalid instant; otherwise the printed lines are the day-grouped listing of the entries sorted by instant |
| NextMonth.PrintDays | next-month.js:136-146 | the listing loop throws exactly when an entry's date is invalid; otherwise it prints the header and bullet lines of the day grouping |
| NextMonth.PushedEntriesCount | next-month.js:103-127 | one entry per record with a truthy release date |
| NextMonth.PushedEntriesDates | next-month.js:106 | a pushed date is invalid exactly when its record's instant is out of range |
| NextMonth.PushedEntriesConcat | next-month.js:103-127 | the push loop treats records one at a time: the entries of a + b are those of a followed by those of b |
| NextMonth.UndatedEntryIgnored | next-month.js:104 | a record with a falsy `first_release_date` contributes no entry |
| NextMonth.SortKeepsEntries | next-month.js:129 | sorting keeps the number of entries and whether any has an invalid date |
| NextMonth.SortByInstant | next-month.js:129 | on valid dates the comparator `a.date - b.date` sorts as ascending instants |
| NextMonth.ListingOrder | next-month.js:129 | when nothing throws, the sorted entries are all valid, ascending by instant, a permutation of the pushed entries, and each UTC day's entries stand together |
| NextMonth.ListingStable | next-month.js:129 | entries at the same instant keep their input order |
| NextMonth.SortedKeysContiguous | next-month.js:138 | in instant order, entries with equal day keys are adjacent |
| NextMonth.OneHeaderPerDay | next-month.js:136-143 | no two day headers of a listing are for the same UTC day |
| Grouping.GroupedItems | next-month.js:137-146 | the body lines are the rows, each once and in order; there is one header per row that opens a group, and no other line |
| Grouping.HeaderPrecedesExactly | next-month.js:140-143 | a row's body line is preceded by a header exactly when its key differs from the previous row's (always for the first row), and that header carries the row's title |
| Grouping.GroupHeadExists | next-month.js:140-142 | every row belongs to a group opened by a row with the same key at or before it |
| Grouping.OneGroupPerKey | next-month.js:138-143 | when equal keys stand together, no two rows that open groups share a key |
| App.Page.constructor | public/app.js:97 | before any load the stored list is empty (an unset `window.__allGames` reads as `[]`) and the table body is empty |
| App.Page.RenderTable | public/app.js:32-91 | the table body becomes the day-grouped rows of the games; the status, display and stored rows do not change |
| App.Page.FetchReleases | public/app.js:4-30 | an error gives "Failed to load data." and a hidden table; a non-array or empty response gives "No games found.", a hidden table and leaves the stored rows and table as they were; otherwise the rows are stored and rendered, the table is shown and the status counts them |
| App.Page.OnFilterInput | public/app.js:95-109 | the table shows the stored rows that the typed input selects; nothing else changes |
| App.ModeLabel | public/app.js:23 | the label is "Next 30 days" exactly when the mode is `'30days'`, and "Next calendar month" otherwise |
| App.BlankQueryShowsAll | public/app.js:96-102 | an input of nothing but white space shows every stored row unchanged |
| App.FilterShowsMatches | public/app.js:104-106 | a non-empty query shows exactly the stored rows whose lower-cased platforms contain the query |
| App.FilterKeepsOrder | public/app.js:104-106 | the shown rows keep their stored order: filtering a split list gives the rows shown from each part, in turn |
| App.FilterIsIdempotent | public/app.js:104-106 | filtering the shown rows again with the same input changes nothing |
| App.TrimLower | public/app.js:96 | trimming and lower-casing commute |
| App.LowerTwice | public/app.js:96 | lower-casing twice is lower-casing once |
| App.QueryIgnoresCase | public/app.js:96 | typing the query in lower case selects the same rows |
| App.CoverShownForRecord | public/app.js:64-74 | a server row's cover cell holds an image exactly when its record had a truthy image id, and the image is that id's cover URL |
| App.TableLayout | public/app.js:36-89 | one game row per game, in order; a header row with the game's humanDate comes right before it exactly when its date differs from the previous game's |
| App.SortedRowsContiguous | public/app.js:40 | in rows sorted by date string, equal dates are adjacent |
| App.ServerTableOneHeaderPerDate | public/app.js:36-53 | for the rows the server returns, no two header rows of the table are for the same date |
| Text.Trim | public/app.js:96 | `trim` keeps a slice with only white space cut off either end, and the result neither starts nor ends with white space |
| Text.DecimalRoundTrip | public/app.js:23 | the count in the status line is written in decimal digits that read back as the count |

## Left out

- Token exchange, the IGDB query, Express routing, static files and
  `process.exit`: network and process plumbing. The window is the part of
  the query that the model covers. The query keeps releases with
  `fromUnix <= first_release_date < toUnix`.
- The response of the catalog is taken as well-typed JSON. Each field is
  either absent or of its documented type. A field that is JSON `null` is
  treated like an absent one, except that `${name}` would then print
  `null` rather than `undefined`.
- `toLocaleDateString` is a locale-dependent foreign call. It appears as the
  opaque parameter `humanDate`, and an Invalid Date prints as
  "Invalid Date". Nothing is claimed about how `humanDate` (local time)
  relates to `date` (UTC).
- The local time zone and daylight saving time: all calendar arithmetic is
  in UTC.
- DOM mechanics: element creation, `colSpan`, class names, image styles and
  lazy loading. The transient "Loading…" status is set but not observable
  after `FetchReleases`. The event listeners and the mode switcher are
  outside the model; `OnFilterInput` and `FetchReleases` are called
  directly.
- The `mode` query parameter: `server.js` never reads it and always serves
  the month window. The client's "Next 30 days" label therefore does not
  describe the rows it shows. There is no 30-day window to model.
- `(g.platforms || '')`: a server row always has a platform string, so the
  fallback never applies to the rows this model stores.
- Console output before a RangeError: `NextMonth.FormatGames` reports
  `Thrown` but not the lines printed before the throw. The "Querying games
  from" log lines are not modelled.
- Text.Lower: only the ASCII letters are lower-cased; the full Unicode case
  mapping of `toLowerCase` is not modelled.
- Text.Less: characters compare as code points. JavaScript compares UTF-16
  code units, and the two orders differ only for characters above U+FFFF.
- Server.TransformGamesForUi: it is proved against the insertion-sort
  specification `StableSort.Sort` on a sequence in place of the engine's
  in-place array sort. ECMAScript requires only that sort be stable, so
  any stable sort gives the same result.
- NextMonth.FormatGames: when an entry has an Invalid Date, the comparator
  is inconsistent and ECMAScript leaves the sort order
  implementation-defined. The model then sorts by the NaN-as-0 rule, and
  the only outcome it claims in that case is `Thrown`.
