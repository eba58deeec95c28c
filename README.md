# Santa tracker: a verified model of the sighting store, its routes and the client's display helpers

The Santa tracker takes reports of Santa sightings and keeps them in a SQLite table. Each report has a
position, a sighting time and a free-text description. The server lists the sightings of one local day
and looks them up by id. The client shows each sighting's age as text and as a marker colour.

This project models the following parts of that system:

- **The sighting store.** The `Database` class of the server keeps rows in insertion order together with
  the AUTOINCREMENT counter. The model covers:
  - insertion, with a fresh id and the insert-time clock as `reported_at`;
  - lookup by id;
  - the listing of one local day through its GMT window;
  - the age fields added to every returned row.
- **The JavaScript date arithmetic the store relies on.** This is `Date.UTC` with its rollover of hours
  and days, `toISOString`, and reading an ISO timestamp back. It is modelled on the ECMAScript day
  numbering as integers. An invalid `Date` (NaN) is `None`.
- **The JavaScript number reading the store and the router rely on.** `Number()` on a text, as
  `split('-').map(Number)` applies it to the pieces of a date, and `parseInt(s, 10)`. Number()
  trims ECMAScript white space, reads "" as 0, and accepts 0b/0o/0x literals, a signed decimal with a
  fraction and an exponent, or Infinity; anything else is NaN (`None`). Date.UTC then truncates each
  argument toward zero, and NaN or an infinity makes the date NaN.
- **The sightings router.** The model covers:
  - the ordered guard chain of `POST /`, ending in the insert;
  - the timezone default of `GET /`, and its 500 answer on any error of the store;
  - the 400/404/200 answers of `GET /:id`.
- **Three client helpers:** `formatTimeAgo`, `formatCurrentTime` and `getMarkerColor`. The last is
  written twice, once on the map page and once on the admin page.

The clock, "today" in a timezone and the geofence test are parameters.

The code and its tests disagree in two places, and the model follows the code:

- With no date given, the listing uses today's civil date in the zone (database.ts line 53). The tests
  expect a rolling 24-hour window instead.
- America/Chicago is always six hours behind UTC (database.ts lines 112-114). The tests expect the
  offset to follow daylight saving time.

Modules, one per file:

| Module | Content |
|---|---|
| `Wrappers` | `Option` and `Result` |
| `Decimal` | digits, `String(n)`, `padStart`, fixed-width numbers |
| `Text` | SQLite's byte-wise text order |
| `Calendar` | ECMAScript's day numbers and civil dates, both ways |
| `Fields` | fixed-width field layouts: rendering, reading back, order |
| `JsDate` | the JavaScript date operations listed above |
| `JsNumber` | `Number()` on text, Date.UTC's argument conversion, `parseInt(s, 10)` |
| `Json` | JSON values and JavaScript truthiness |
| `SightingStore` | the store |
| `SightingsRoutes` | the router |
| `TimeFormat` | `formatTimeAgo` |
| `CurrentTime` | `formatCurrentTime` |
| `MarkerColor` | `getMarkerColor` |

## Model

| member | source | states |
|---|---|---|
| SightingStore.Database.constructor | server/src/database.ts:7-23 | A new store has an empty table and a counter at 0, and the table invariant holds. |
| SightingStore.Database.CreateSighting | server/src/database.ts:32-46 | If the counter is exhausted, the result is TableFull and nothing changes. Otherwise exactly one row is appended and the counter advances by one. The returned row has the new id, which is found by lookup and is larger than every stored id. Its four input fields are as given, `reported_at` is the ISO text of the insert-time clock, and ages are added. The table invariant (ids in 1..counter, increasing) is kept. |
| SightingStore.Database.GetSightings | server/src/database.ts:48-62 | The listing fails exactly when the window of the date to use fails, with the same error. The zone defaults to America/Chicago only when it is omitted. Otherwise the result is the rows of the table in the half-open window, in table order, each with its ages. Ids strictly increase, there are no more sightings than rows, and the members are exactly the stored rows in the window with their ages. |
| SightingStore.Database.GetSightingById | server/src/database.ts:64-70 | A sighting is returned exactly when some stored row has the id. It is that row with its ages. An id the counter never issued gives nothing. |
| SightingStore.AgeMinutes | server/src/database.ts:72-78 | An age exists exactly when the timestamp denotes an instant. It is the floor of the elapsed milliseconds over 60000, and it is at least 0 when the instant is not after now. |
| SightingStore.AgeOf | server/src/database.ts:77-78 | On an instant, the age is the whole minutes elapsed. NaN stays NaN. |
| SightingStore.AddAgeFields | server/src/database.ts:72-85 | The row is copied unchanged, and the two ages are those of `sighted_at` and `reported_at`. |
| SightingStore.FreshReportedAge | server/src/database.ts:38-39 | Read less than a minute after the insert, a new row's `reported_age` is 0. |
| SightingStore.TimezoneNotStored | server/src/database.ts:33-39 | The submitted timezone has no effect on the stored row. |
| SightingStore.TimezoneOffset | server/src/database.ts:109-116 | The offset is −6 exactly for America/Chicago and 0 for every other zone. |
| SightingStore.DateToGmtRange | server/src/database.ts:87-107 | The only error of the range is RangeError (InvalidTimeValue), which toISOString throws on NaN. |
| SightingStore.RangeInstants | server/src/database.ts:97-106 | The two texts are the `toISOString` of `Date.UTC` at minus the offset o'clock and of 24 hours later, and each reads back as its instant. The range fails exactly when either call is NaN. |
| SightingStore.ChicagoWindow | server/src/database.ts:87-116 | For America/Chicago, the window of date d is d T06:00:00.000Z up to but excluding (d+1) T06:00:00.000Z, with the next day rolled over as `Date.UTC` does. |
| SightingStore.OtherZoneWindow | server/src/database.ts:87-116 | Every other zone string gives midnight to midnight UTC, and it is not an error. |
| SightingStore.DateWindow | server/src/database.ts:92-105 | The window of a valid date is the ISO texts of two instants exactly 24 hours apart, at minus the offset o'clock UTC on that day. |
| SightingStore.WindowsAdjacent | server/src/database.ts:92-105 | In any zone, the end of one day's window is the start of the next day's: no gap and no overlap. |
| SightingStore.YearEndWindow | server/src/database.ts:100-101 | The window of December 31st ends at 06:00Z on January 1st of the next year. |
| SightingStore.FebruaryWindow | server/src/database.ts:100-101 | The window of February 28th ends on the 29th in a leap year and on March 1st otherwise. |
| SightingStore.MalformedDate | server/src/database.ts:92-105 | If Number() gives NaN or an infinity for the year, the month or the day, `Date.UTC` is NaN and the range fails with RangeError. |
| SightingStore.NotADate | server/src/database.ts:92-105 | "not-a-date" is rejected. |
| SightingStore.MissingDay | server/src/database.ts:92-105 | "2024-12" (the day is undefined) is rejected. |
| SightingStore.TwoDigitYear | server/src/database.ts:100-101 | A year that reads as 0..99 gives the window of the same month and day in 1900 + y. |
| SightingStore.DateUtcFullYear | server/src/database.ts:100-101 | `Date.UTC` reads a year 0..99 as 1900 + y (MakeFullYear), whatever the other arguments. |
| SightingStore.JoinSplit | server/src/database.ts:92 | `split('-')` loses nothing: joining the pieces gives the text back. |
| SightingStore.Split | server/src/database.ts:92 | There is always at least one piece, and no piece contains the separator. |
| SightingStore.SplitJoin | server/src/database.ts:92 | Pieces without the separator, once joined, split back into the same pieces. |
| SightingStore.DateTextSplit | server/src/database.ts:92 | A YYYY-MM-DD text splits into its year, month and day. |
| SightingStore.DateTextNumbers | server/src/database.ts:92-100 | `Date.UTC` receives the year, the zero-based month and the day of a YYYY-MM-DD text. |
| SightingStore.FieldsOfPieces | server/src/database.ts:92-101 | For three dash-free pieces joined by dashes, `Date.UTC` receives what Number() reads in each piece, the month minus one, each truncated toward zero. |
| SightingStore.SpaceAfterDate | server/src/database.ts:92 | White space after a date ("2024-12-25 ") does not change its window. |
| SightingStore.SignedMonth | server/src/database.ts:92 | A plus sign before the month ("2024-+12-25") does not change the window. |
| SightingStore.SignedDay | server/src/database.ts:92 | A plus sign before the day ("2024-12-+25") does not change the window. |
| SightingStore.FractionalDay | server/src/database.ts:92-101 | A fraction after the day ("2024-12-25.75") is dropped by `Date.UTC`, so the window is that of the day. |
| SightingStore.WindowFilter | server/src/database.ts:57-60 | For timestamps of the years 0..9999, the text comparison `start <= sighted_at < end` holds exactly when the instant lies in the half-open window. That is exactly when its date, shifted by the offset, is the requested day. |
| SightingStore.InWindowOrder | server/src/database.ts:56-58 | Between `toISOString` texts of the years 0..9999, the window test on text is the window test on instants. |
| SightingStore.Matching | server/src/database.ts:57-60 | The selected rows are exactly the stored rows in the window. A row in the window occurs as often as in the table, any other row not at all, and there are no more of them than rows. |
| SightingStore.MatchingAscending | server/src/database.ts:57-60 | Selection keeps the table order: increasing ids stay increasing. |
| SightingStore.ListedSightings | server/src/database.ts:57-61 | The listing of a window has no more sightings than rows, comes in increasing id order, and its members are exactly the stored rows in the window with their ages. |
| SightingStore.MapAgesOf | server/src/database.ts:61 | The map keeps the count. Its members are exactly the stored rows of the selection with their ages. |
| SightingStore.DateToUse | server/src/database.ts:53 | A non-empty date is used as given. A missing or empty date falls back to today in the zone, or to that lookup's error. |
| SightingStore.StoreZone | server/src/database.ts:48 | An omitted timezone is America/Chicago. Any given value, "" included, is used as it is. |
| SightingStore.ListingWindow | server/src/database.ts:53-56 | A listing fails only with RangeError from a date `Date.UTC` cannot read, or with the today lookup's InvalidTimeZone when the date is missing or empty. |
| SightingStore.FindById | server/src/database.ts:64-67 | A row found has the id. Nothing is found exactly when no stored row has the id. |
| SightingStore.UniqueIds | server/src/database.ts:64-67 | In a valid table, every row is the one its id finds. |
| SightingStore.UnissuedId | server/src/database.ts:64-69 | An id outside 1..counter is not found. |
| SightingStore.AppendNext | server/src/database.ts:39-43 | Appending the row with the next id keeps the invariant, and the new id exceeds all earlier ones. |
| SightingStore.FindAfterAppend | server/src/database.ts:39-43 | After the append, the new id finds the new row and every other id finds what it found before. |
| SightingsRoutes.CheckPost | server/src/routes/sightings.ts:13-52 | The body is accepted exactly when the fields are present, the coordinates are numbers, the texts are strings and the point is inside the geofence. The accepted input carries the five received fields. Each failing guard yields its own 400 message, checked in source order. |
| SightingsRoutes.RejectionNamesGuard | server/src/routes/sightings.ts:16-44 | Each rejection message is given exactly when its guard is the first to fail, so a 400 tells which check failed. |
| SightingsRoutes.ZeroCoordinatePresent | server/src/routes/sightings.ts:16-22 | Latitude and longitude 0 count as present; only undefined is missing. |
| SightingsRoutes.TimezoneUnchecked | server/src/routes/sightings.ts:16-52 | The timezone's type is never checked. Any truthy value leaves the decision unchanged and is passed on as it is. |
| SightingsRoutes.HandlePost | server/src/routes/sightings.ts:11-59 | A rejected body gives 400 with its message, and nothing is inserted. A failing insert gives 500, and nothing is inserted. Otherwise exactly one row with the received fields is appended, and the answer is 201 with that sighting. |
| SightingsRoutes.ListZone | server/src/routes/sightings.ts:65 | A missing or empty `timezone` query gives America/Chicago; any other value is used as given. |
| SightingsRoutes.HandleList | server/src/routes/sightings.ts:62-72 | The zone is the `timezone` query, or America/Chicago when it is missing or empty. The date is passed on as given. The answer is 500 exactly when the listing window fails. Otherwise it is 200 with exactly the store's listing: the rows in the window in table order with their ages, ids increasing. |
| SightingsRoutes.HandleGetById | server/src/routes/sightings.ts:75-95 | An id `parseInt` cannot read gives 400. A number no stored row has gives 404. Otherwise the answer is 200 with the stored row of that id and its ages. |
| JsDate.DateUtcHourOverflow | server/src/database.ts:100-101 | `Date.UTC` with 24 more hours is `Date.UTC` of the next day. |
| JsDate.DateUtcOfCivil | server/src/database.ts:100-101 | For a valid date from year 100 on, `Date.UTC` is its day number in milliseconds plus the hours, clipped to the Date range. |
| JsDate.TimeClip | server/src/database.ts:100-101 | The time value is NaN exactly beyond ±8.64·10^15 ms, and unchanged otherwise. |
| JsDate.DateUtc | server/src/database.ts:100-101 | A NaN argument makes `Date.UTC` NaN. |
| JsDate.ToIsoStringReads | server/src/database.ts:104-105 | `toISOString` throws exactly on NaN, and the text it writes reads back as the Date. |
| JsDate.TimeFields | server/src/database.ts:104-105 | The hour, minute, second and millisecond of a time of day are in range, and they rebuild it. |
| JsDate.YearRange | server/src/database.ts:104-105 | A representable instant falls in a year of at most six digits. |
| JsDate.ParseIsoText | server/src/database.ts:74-78 | Reading the `toISOString` text of any instant back gives the instant, in both the four-digit and the signed six-digit year forms. |
| JsDate.IsoTextOrder | server/src/database.ts:57-105 | For instants in the years 0..9999, the ISO texts sort byte-wise exactly as the instants do, and they are equal exactly when the instants are. |
| JsDate.InstantOfFields | server/src/database.ts:104-105 | The calendar and clock fields of an instant rebuild it. |
| JsNumber.NumberIgnoresSpace | server/src/database.ts:92 | White space before or after the text does not change Number(). |
| JsNumber.NumberOfDigits | server/src/database.ts:92 | Number() of a digit string is its value; leading zeros are allowed. |
| JsNumber.NumberPlusSign | server/src/database.ts:92 | A leading + does not change Number(). |
| JsNumber.NumberOfFraction | server/src/database.ts:92 | Number() of digits, a point and digits is the exact decimal value, to as many places as there are fraction digits. |
| JsNumber.NumberOfExponent | server/src/database.ts:92 | Number() of digits, e and digits is the value times that power of ten. |
| JsNumber.NumberOfWord | server/src/database.ts:92 | A text starting with a letter, other than the I of Infinity, is NaN. |
| JsNumber.DigitsArgument | server/src/database.ts:92-101 | `Date.UTC` takes a digit string as its value, and `month - 1` as one less. |
| JsNumber.TruncateFraction | server/src/database.ts:100-101 | `Date.UTC` drops the fraction of a non-negative argument. |
| JsNumber.FractionArgument | server/src/database.ts:92-101 | `Date.UTC` takes digits, a point and digits as the whole part. |
| JsNumber.LeadingDigits | server/src/routes/sightings.ts:77 | The length of the leading run of decimal digits: all counted characters are digits, and the next one is not. |
| JsNumber.ParseIntDecimal | server/src/routes/sightings.ts:77 | `parseInt` reads back the decimal form of a number, with or without a minus sign, and stops at the first non-digit. |
| JsNumber.ParseIntSkipsSpace | server/src/routes/sightings.ts:77 | Leading white space does not change the result. |
| JsNumber.ParseIntNoDigits | server/src/routes/sightings.ts:77-79 | A text without digits is NaN. |
| Calendar.YearFromDay | server/src/database.ts:100-105 | The year found is the one whose days contain the day number. |
| Calendar.YearFromDayUnique | server/src/database.ts:100-105 | Only one year contains a given day. |
| Calendar.CivilFromDays | server/src/database.ts:100-105 | The civil date of a day number is valid, and numbering it gives back the day number. |
| Calendar.DayOfMakeDay | server/src/database.ts:100-105 | ECMAScript MakeDay, as `Date.UTC` applies it, of a valid date equals the date's day number. |
| Calendar.NextDay | server/src/database.ts:100-101 | The day after a valid date is a valid date numbered one more. |
| Calendar.NextDayYear | server/src/database.ts:100-101 | The next day falls in the same year or the next. |
| Text.TextLessTrichotomy | server/src/database.ts:57 | Byte-wise text order is total and asymmetric. |
| Text.TextLessTransitive | server/src/database.ts:57 | Byte-wise text order is transitive. |
| TimeFormat.FormatTimeAgo | client/src/lib/timeFormat.ts:6-26 | Every text reads back as exactly one form. The form is chosen by the ranges below 5, 5..59, 60..1439 and 1440 and over. The minute count is the input. The hour count is in 1..23 and is the floor of the minutes over 60. The day count is at least 1 and is the floor of the minutes over 1440. |
| TimeFormat.TimeAgoMonotone | client/src/lib/timeFormat.ts:6-26 | As the minutes grow the form only moves forward, and within a form the number never decreases. |
| TimeFormat.ReadCount | client/src/lib/timeFormat.ts:14-25 | The digits of a number followed by a suffix read back as that number in that suffix's form. |
| TimeFormat.ReadShowInverse | client/src/lib/timeFormat.ts:6-26 | Each form's text reads back as that form, and every text that reads is the text of the form it reads as. A count with a leading zero is not read. |
| TimeFormat.NowExample | client/src/lib/timeFormat.ts:8-10 | 4 minutes gives "now". |
| TimeFormat.MinuteExample | client/src/lib/timeFormat.ts:13-15 | 59 minutes gives "59 min ago". |
| TimeFormat.HourExample | client/src/lib/timeFormat.ts:18-21 | 1439 minutes gives "23h ago". |
| TimeFormat.DayExample | client/src/lib/timeFormat.ts:24-25 | 10080 minutes gives "7d ago". |
| CurrentTime.FormatCurrentTime | client/src/lib/formatCurrentTime.ts:6-12 | The text has the shape "H:MM AM/PM" (one or two hour digits, two minute digits), and it reads back as the hour and minute given. |
| CurrentTime.ReadClockExact | client/src/lib/formatCurrentTime.ts:6-12 | Every text ReadClock reads is the text formatCurrentTime writes for the time it reads; an hour with a leading zero is not read. |
| CurrentTime.Meridiem | client/src/lib/formatCurrentTime.ts:9 | The suffix is PM exactly when the hour is 12 or more, and AM otherwise. |
| CurrentTime.Hours12 | client/src/lib/formatCurrentTime.ts:10 | The dial hour is in 1..12 and agrees with the hour modulo 12. |
| CurrentTime.TwoDigitMinutes | client/src/lib/formatCurrentTime.ts:11 | The minutes are always written as exactly two digits of their value. |
| CurrentTime.HalfOfDay | client/src/lib/formatCurrentTime.ts:9-10 | The dial hour and the AM/PM suffix give back the hour of the day. PM means the hour is 12 or more. |
| CurrentTime.TwelveHourInjective | client/src/lib/formatCurrentTime.ts:9-10 | Different hours of the day never show the same dial hour and suffix. |
| CurrentTime.ClockInjective | client/src/lib/formatCurrentTime.ts:6-12 | Two times that show the same text are the same time. |
| CurrentTime.DialExamples | client/src/lib/formatCurrentTime.ts:9-10 | 0 shows as 12 AM, 12 as 12 PM, and 13 and 23 as 1 and 11. |
| MarkerColor.CopiesAgree | client/src/pages/AdminPage.tsx:21-26 | AdminMarkerColor, the admin page's copy, gives every age the same colour as the map page's. |
| MarkerColor.MarkerBands | client/src/components/Map.tsx:15-20 | MapMarkerColor gives every age one of the four colours. Red is below 30 minutes, including negative ages. Orange is 30..59, yellow 60..119, and blue 120 and over. |
| MarkerColor.ColorMonotone | client/src/components/Map.tsx:15-20 | As an age grows, the colour only moves from red to orange to yellow to blue, never back. |
| MarkerColor.LegendsMatchMarkers | client/src/components/Map.tsx:158-171 | Both the map legend and the help text (HelpPopup.tsx lines 49-52) give every age its marker's colour. |

## Left out

- The geofence test is a parameter (`inside`). Its Haversine distance is floating-point trigonometry, and `server/src/geofence.ts` is not part of this model.
- SightingsRoutes.GeofenceConfig: `radiusMiles` is the radius as JavaScript already prints it. Number-to-text conversion of a general number is not modelled.
- `getTodayInTimezone` (`Intl.DateTimeFormat` and the timezone database) is a parameter: today's date text, or InvalidTimeZone for a zone Intl rejects.
- The clock is a parameter: `stamped` at the insert, `now` when ages are added. A listing reads the clock once, where `addAgeFields` reads `new Date()` for each row.
- SQLite I/O is not modelled, nor is reopening an existing database file. The constructor starts from an empty table. `tableExists` and `close` are left out for the same reason.
- SightingStore.Database.GetSightings: the query has no ORDER BY, so SQLite does not promise an order. The model returns the rows in table order, which is increasing id order, as a plain scan of a rowid table gives them. Another query plan could return another order.
- Daylight saving time and the rolling 24-hour default window are left out. The code implements neither, so the model follows the code.
- SightingStore.AgeMinutes: `Date.parse` is modelled only on the exact text `toISOString` writes. Other timestamp formats in `sighted_at` give NaN here, although JavaScript reads some of them.
- A NaN age, serialised as `null` in the JSON reply, is `None`.
- The reported age of a sighting created through the API is proved 0 for the parameters (FreshReportedAge). The model does not check that the server's two clock readings lie within a minute of each other.
- Request coordinates are plain reals. JavaScript's 64-bit floating point is not modelled.
- JsNumber.ParseInt: the number is the exact integer value of the digits. JavaScript rounds very long digit strings to a 64-bit float.
- JsNumber.StringToNumber: a Number() value is the exact decimal mantissa × 10^exponent. JavaScript rounds it to the nearest 64-bit float, so very long or very large literals can differ by that rounding.
- Ids are unbounded integers up to SQLite's 2^63 − 1. better-sqlite3 returns `lastInsertRowid` as a JavaScript number, which loses precision above 2^53. The model does not.
- Query parameters are modelled as a string or missing. Express gives an array for a repeated parameter (`?date=a&date=b`). `split` then throws, and `GET /` answers 500. That path is not modelled.
- The store errors the routes answer 500 to are these three. `createSighting` can fail with TableFull (SQLITE_FULL). `getSightings` can fail with InvalidTimeValue (the RangeError of `toISOString`) or with InvalidTimeZone (from `Intl`). Other database exceptions, such as I/O errors or a locked file, are not modelled.
- Auth, admin routes, Express wiring, React components, Leaflet and the client's polling timer are not part of this model.
- `formatCurrentTime` takes the hours and minutes `getHours` and `getMinutes` return (0..23, 0..59). The local timezone that `Date` uses for them is not modelled.
- MarkerColor.LegendsMatchMarkers: the open last band is captioned "> 2 hours" and "Over 2 hours". It is read as 120 minutes and over, as the markers colour it, although an age of exactly 120 minutes is not "over" two hours.
- Dates before the year 100 and after 9999 in the window lemmas (ChicagoWindow and the like) are not covered. For those years `Date.UTC` maps 0..99 to 1900..1999 (TwoDigitYear covers that case), and `toISOString` changes format. The general functions handle all years.
