/**
 * The sighting store: an in-memory model of the `sightings` table (rows in
 * insertion order and the AUTOINCREMENT counter), the date-window listing,
 * lookup by id and the age fields added to every returned row.
 * The clock and "today in a timezone" are inputs.
 */
module SightingStore {
  import opened Wrappers
  import opened Text
  import opened Decimal
  import opened Calendar
  import opened JsDate
  import opened Json
  import opened JsNumber

  datatype SightingRow = SightingRow(
    id: int, latitude: real, longitude: real, sightedAt: string, reportedAt: string, details: string)

  /** What a client submits; the timezone is received but never stored. */
  datatype SightingInput = SightingInput(
    latitude: real, longitude: real, sightedAt: string, details: string, timezone: JsonValue)

  /** A row with its ages in minutes; None stands for NaN (a timestamp Date cannot read). */
  datatype Sighting = Sighting(row: SightingRow, sightedAge: Option<int>, reportedAge: Option<int>)

  datatype StoreError =
    | InvalidTimeValue   // toISOString of an invalid Date (RangeError)
    | InvalidTimeZone    // Intl.DateTimeFormat rejects the zone (RangeError)
    | TableFull          // AUTOINCREMENT exhausted (SQLITE_FULL)

  /** The half-open GMT window [startGmt, endGmt) of one local day. */
  datatype Window = Window(startGmt: string, endGmt: string)

  const ChicagoZone := "America/Chicago"

  /** The largest rowid SQLite issues. */
  const MaxRowId := 9223372036854775807

  // ---------------------------------------------------------------------
  // Ages

  /** floor((now - t) / 60000) for the instant t a timestamp denotes; None if it denotes none. */
  function AgeMinutes(now: TimeValue, stamp: string): (age: Option<int>)
    ensures age.Some? <==> ParseIso(stamp).Some?
    ensures age.Some? ==>
      age.value * 60000 <= now - ParseIso(stamp).value < (age.value + 1) * 60000
    ensures age.Some? && ParseIso(stamp).value <= now ==> age.value >= 0
  {
    AgeOf(now, ParseIso(stamp))
  }

  /** Math.floor((now - t) / 60000) of the instant a Date holds; NaN stays NaN. */
  function AgeOf(now: TimeValue, instant: Option<TimeValue>): (age: Option<int>)
    ensures age.Some? <==> instant.Some?
    ensures age.Some? ==> age.value * 60000 <= now - instant.value < (age.value + 1) * 60000
  {
    match instant
    case None => None
    case Some(t) => Some((now - t) / 60000)
  }

  /** addAgeFields: the row unchanged, plus the ages of its two timestamps. */
  function AddAgeFields(row: SightingRow, now: TimeValue): (s: Sighting)
    ensures s.row == row
    ensures s.sightedAge == AgeMinutes(now, row.sightedAt) && s.reportedAge == AgeMinutes(now, row.reportedAt)
  {
    Sighting(row, AgeMinutes(now, row.sightedAt), AgeMinutes(now, row.reportedAt))
  }

  // ---------------------------------------------------------------------
  // Date windows

  /** getTimezoneOffset: a fixed six hours behind UTC for America/Chicago, UTC for every other zone. */
  function TimezoneOffset(timezone: string): (offset: int)
    ensures offset == -6 <==> timezone == ChicagoZone
    ensures offset == -6 || offset == 0
  {
    if timezone == ChicagoZone then -6 else 0
  }

  /** String.prototype.split with a one-character separator. */
  function Split(s: string, sep: char): (parts: seq<string>)
    ensures |parts| >= 1
    ensures forall i :: 0 <= i < |parts| ==> sep !in parts[i]
    decreases |s|
  {
    if s == [] then [""]
    else
      var rest := Split(s[1..], sep);
      if s[0] == sep then [""] + rest
      else [[s[0]] + rest[0]] + rest[1..]
  }

  /** Array.prototype.join, the inverse of Split. */
  function Join(parts: seq<string>, sep: char): string
    requires |parts| >= 1
    decreases |parts|
  {
    if |parts| == 1 then parts[0] else parts[0] + [sep] + Join(parts[1..], sep)
  }

  /** Splitting and joining again gives back the text. */
  lemma {:induction false} JoinSplit(s: string, sep: char)
    ensures Join(Split(s, sep), sep) == s
    decreases |s|
  {
    if s != [] {
      var rest := Split(s[1..], sep);
      JoinSplit(s[1..], sep);
      if s[0] == sep {
        assert ([""] + rest)[1..] == rest;
      } else if |rest| > 1 {
        var parts := Split(s, sep);
        assert parts[1..] == rest[1..];
      }
    }
  }

  /** A piece without separators splits into itself. */
  lemma {:induction false} SplitPiece(a: string, sep: char)
    requires sep !in a
    ensures Split(a, sep) == [a]
    decreases |a|
  {
    if a != [] {
      SplitPiece(a[1..], sep);
      assert [a[0]] + a[1..] == a;
    }
  }

  /** A separator-free head followed by a separator splits off as the first piece. */
  lemma {:induction false} SplitHead(a: string, sep: char, b: string)
    requires sep !in a
    ensures Split(a + [sep] + b, sep) == [a] + Split(b, sep)
    decreases |a|
  {
    var s := a + [sep] + b;
    if a == [] {
      assert s[1..] == b;
    } else {
      assert s[1..] == a[1..] + [sep] + b;
      SplitHead(a[1..], sep, b);
      assert [a[0]] + a[1..] == a;
    }
  }

  /** Joining separator-free pieces and splitting again gives back the pieces. */
  lemma {:induction false} SplitJoin(parts: seq<string>, sep: char)
    requires |parts| >= 1 && forall i :: 0 <= i < |parts| ==> sep !in parts[i]
    ensures Split(Join(parts, sep), sep) == parts
    decreases |parts|
  {
    if |parts| == 1 {
      SplitPiece(parts[0], sep);
    } else {
      SplitJoin(parts[1..], sep);
      SplitHead(parts[0], sep, Join(parts[1..], sep));
      assert [parts[0]] + parts[1..] == parts;
    }
  }

  /** The i-th piece of a destructured split, as Number() reads it; a missing piece is undefined, so NaN. */
  function Part(parts: seq<string>, i: nat): Option<Numeric> {
    if i < |parts| then StringToNumber(parts[i]) else None
  }

  /** dateToGMTRange: midnight to midnight of a local date, shifted by the zone offset, as ISO text. */
  function DateToGmtRange(localDate: string, timezone: string): (r: Result<Window, StoreError>)
    ensures r.Err? ==> r == Err(InvalidTimeValue)
  {
    RangeAtHour(localDate, -TimezoneOffset(timezone))
  }

  /** The window of a local date whose midnight is startHour o'clock UTC. */
  function RangeAtHour(localDate: string, startHour: int): Result<Window, StoreError> {
    var fields := DateFields(localDate);
    WindowOfFields(fields.year, fields.monthIndex, fields.day, startHour)
  }

  /** The integers Date.UTC takes from its year, month and day arguments; None stands for NaN. */
  datatype UtcFields = UtcFields(year: Option<int>, monthIndex: Option<int>, day: Option<int>)

  /** split('-').map(Number), destructured, with month - 1 as the month, truncated as Date.UTC does. */
  function DateFields(localDate: string): UtcFields {
    var parts := Split(localDate, '-');
    UtcFields(DateArgument(Part(parts, 0)), DateArgument(MinusOne(Part(parts, 1))), DateArgument(Part(parts, 2)))
  }

  /**
   * The two Date.UTC calls of dateToGMTRange, at the local midnight's UTC hour and 24 hours later,
   * and their toISOString.
   */
  function WindowOfFields(year: Option<int>, monthIndex: Option<int>, day: Option<int>, startHour: int)
    : Result<Window, StoreError>
  {
    match ToIsoString(DateUtc(year, monthIndex, day, startHour))
    case Err(_) => Err(InvalidTimeValue)
    case Ok(startGmt) =>
      match ToIsoString(DateUtc(year, monthIndex, day, startHour + 24))
      case Err(_) => Err(InvalidTimeValue)
      case Ok(endGmt) => Ok(Window(startGmt, endGmt))
  }

  /** A date as the client sends it: YYYY-MM-DD. */
  function DateText(c: CivilDate): string
    requires 0 <= c.year && 0 <= c.month && 0 <= c.day
  {
    Fixed(c.year, 4) + "-" + Fixed(c.month, 2) + "-" + Fixed(c.day, 2)
  }

  /** toISOString of h o'clock UTC on a date. */
  function HourStamp(c: CivilDate, h: nat): string
    requires 0 <= c.year && 0 <= c.month && 0 <= c.day
  {
    DateText(c) + "T" + Fixed(h, 2) + ":00:00.000Z"
  }

  lemma DigitsHaveNoDash(s: string)
    requires AllDigits(s)
    ensures '-' !in s
  {
  }

  /** A date text splits on '-' into its year, month and day. */
  lemma DateTextSplit(c: CivilDate)
    requires 0 <= c.year && 0 <= c.month && 0 <= c.day
    ensures Split(DateText(c), '-') == [Fixed(c.year, 4), Fixed(c.month, 2), Fixed(c.day, 2)]
  {
    DigitsHaveNoDash(Fixed(c.year, 4));
    DigitsHaveNoDash(Fixed(c.month, 2));
    DigitsHaveNoDash(Fixed(c.day, 2));
    SplitThree(Fixed(c.year, 4), Fixed(c.month, 2), Fixed(c.day, 2), '-');
  }

  lemma SplitThree(a: string, b: string, d: string, sep: char)
    requires sep !in a && sep !in b && sep !in d
    ensures Split(a + [sep] + b + [sep] + d, sep) == [a, b, d]
  {
    SplitPiece(d, sep);
    SplitHead(b, sep, d);
    SplitHead(a, sep, b + [sep] + d);
    assert a + [sep] + b + [sep] + d == a + [sep] + (b + [sep] + d);
  }

  /**
   * The window of a valid date from year 100 on, whose next day is still a four-digit year:
   * from h o'clock UTC on that date to h o'clock UTC on the next, h being minus the zone offset.
   */
  lemma WindowOfDate(c: CivilDate, h: nat)
    requires IsValid(c) && 100 <= c.year && NextDay(c).year <= 9999 && h < 24
    ensures RangeAtHour(DateText(c), h) == Ok(Window(HourStamp(c, h), HourStamp(NextDay(c), h)))
  {
    DateTextNumbers(c);
    WindowOfCivil(c, h);
  }

  /** The Date.UTC window of a civil date, h o'clock to h o'clock UTC. */
  lemma WindowOfCivil(c: CivilDate, h: nat)
    requires IsValid(c) && 100 <= c.year && NextDay(c).year <= 9999 && h < 24
    ensures WindowOfFields(Some(c.year), Some(c.month - 1), Some(c.day), h)
         == Ok(Window(HourStamp(c, h), HourStamp(NextDay(c), h)))
  {
    var n, z := NextDay(c), DayOf(c);
    DayNumbers(c, n, z);
    WindowAtDay(z, c, n, h);
  }

  /** A date c and the next one n, numbered z and z + 1, inside the four-digit years. */
  lemma DayNumbers(c: CivilDate, n: CivilDate, z: int)
    requires IsValid(c) && 100 <= c.year && n == NextDay(c) && z == DayOf(c) && n.year <= 9999
    ensures CivilFromDays(z) == c && CivilFromDays(z + 1) == n
    ensures c.year <= n.year && -800000 < z && z + 1 < 3000000
  {
    NextDayYear(c);
    DayOfRange(c);
    DayOfRange(n);
    CivilOfNumber(c, z);
    CivilOfNumber(n, z + 1);
  }

  lemma CivilOfNumber(c: CivilDate, z: int)
    requires IsValid(c) && DayOf(c) == z
    ensures CivilFromDays(z) == c
  {
    CivilFromDaysOf(c);
  }

  /** The same window, for the date numbered z, whose next day is n. */
  lemma WindowAtDay(z: int, c: CivilDate, n: CivilDate, h: nat)
    requires CivilFromDays(z) == c && CivilFromDays(z + 1) == n
    requires 100 <= c.year <= n.year <= 9999 && -800000 < z && z + 1 < 3000000 && h < 24
    ensures WindowOfFields(Some(c.year), Some(c.month - 1), Some(c.day), h)
         == Ok(Window(HourStamp(c, h), HourStamp(n, h)))
  {
    DateUtcAtDay(c, z, h);
    IsoTextAtDayHour(z, h, c);
    IsoTextAtDayHour(z + 1, h, n);
    WindowOfInstants(Some(c.year), Some(c.month - 1), Some(c.day), h,
      z * 86400000 + h * 3600000, (z + 1) * 86400000 + h * 3600000);
  }

  /** The window whose two Date.UTC values are the instants a and b. */
  lemma WindowOfInstants(year: Option<int>, monthIndex: Option<int>, day: Option<int>, hours: int, a: int, b: int)
    requires -MaxTimeValue <= a <= MaxTimeValue && -MaxTimeValue <= b <= MaxTimeValue
    requires DateUtc(year, monthIndex, day, hours) == TimeClip(a)
    requires DateUtc(year, monthIndex, day, hours + 24) == TimeClip(b)
    ensures WindowOfFields(year, monthIndex, day, hours) == Ok(Window(IsoText(a), IsoText(b)))
  {
  }

  /** A date text gives Date.UTC its year, zero-based month and day. */
  lemma DateTextNumbers(c: CivilDate)
    requires 0 <= c.year && 0 <= c.month && 0 <= c.day
    ensures DateFields(DateText(c)) == UtcFields(Some(c.year), Some(c.month - 1), Some(c.day))
  {
    var y, m, d := Fixed(c.year, 4), Fixed(c.month, 2), Fixed(c.day, 2);
    DigitsHaveNoDash(y);
    DigitsHaveNoDash(m);
    DigitsHaveNoDash(d);
    FieldsOfPieces(y, m, d);
    DigitsArgument(y);
    DigitsArgument(m);
    DigitsArgument(d);
  }

  /** The Date.UTC arguments of three pieces joined by dashes: what Number() reads in each. */
  lemma FieldsOfPieces(y: string, m: string, d: string)
    requires '-' !in y && '-' !in m && '-' !in d
    ensures DateFields(y + "-" + m + "-" + d)
         == UtcFields(DateArgument(StringToNumber(y)), DateArgument(MinusOne(StringToNumber(m))),
                      DateArgument(StringToNumber(d)))
  {
    SplitThree(y, m, d, '-');
    assert y + "-" + m + "-" + d == y + ['-'] + m + ['-'] + d;
  }

  /** Texts whose pieces give Date.UTC the same arguments have the same window. */
  lemma SameFieldsSameRange(a: string, b: string, timezone: string)
    requires DateFields(a) == DateFields(b)
    ensures DateToGmtRange(a, timezone) == DateToGmtRange(b, timezone)
  {
  }

  /** Text after the day belongs to the day's piece, when it holds no dash. */
  lemma ExtendDay(c: CivilDate, tail: string)
    requires 0 <= c.year && 0 <= c.month && 0 <= c.day && '-' !in tail
    ensures '-' !in Fixed(c.year, 4) && '-' !in Fixed(c.month, 2) && '-' !in Fixed(c.day, 2) + tail
    ensures DateText(c) + tail == Fixed(c.year, 4) + "-" + Fixed(c.month, 2) + "-" + (Fixed(c.day, 2) + tail)
  {
    DigitsHaveNoDash(Fixed(c.year, 4));
    DigitsHaveNoDash(Fixed(c.month, 2));
    DigitsHaveNoDash(Fixed(c.day, 2));
  }

  /** White space after the date is ignored: "2024-12-25 " lists the window of "2024-12-25". */
  lemma SpaceAfterDate(c: CivilDate, space: char, timezone: string)
    requires 0 <= c.year && 0 <= c.month && 0 <= c.day && IsJsSpace(space)
    ensures DateToGmtRange(DateText(c) + [space], timezone) == DateToGmtRange(DateText(c), timezone)
  {
    var y, m, d := Fixed(c.year, 4), Fixed(c.month, 2), Fixed(c.day, 2);
    ExtendDay(c, [space]);
    ExtendDay(c, []);
    assert DateText(c) + [] == DateText(c) && d + [] == d;
    FieldsOfPieces(y, m, d + [space]);
    FieldsOfPieces(y, m, d);
    NumberIgnoresSpace(d, space);
    SameFieldsSameRange(DateText(c) + [space], DateText(c), timezone);
  }

  /** A plus sign before the month is ignored: "2024-+12-25" lists the window of "2024-12-25". */
  lemma SignedMonth(c: CivilDate, timezone: string)
    requires 0 <= c.year && 0 <= c.month && 0 <= c.day
    ensures DateToGmtRange(Fixed(c.year, 4) + "-+" + Fixed(c.month, 2) + "-" + Fixed(c.day, 2), timezone)
         == DateToGmtRange(DateText(c), timezone)
  {
    var y, m, d := Fixed(c.year, 4), Fixed(c.month, 2), Fixed(c.day, 2);
    SignedText(y, m, d);
    FieldsOfPieces(y, "+" + m, d);
    FieldsOfPieces(y, m, d);
    NumberPlusSign(m);
    SameFieldsSameRange(y + "-+" + m + "-" + d, DateText(c), timezone);
  }

  lemma SignedText(y: string, m: string, d: string)
    requires AllDigits(y) && AllDigits(m) && AllDigits(d)
    ensures '-' !in y && '-' !in "+" + m && '-' !in d
    ensures y + "-+" + m + "-" + d == y + "-" + ("+" + m) + "-" + d
  {
    DigitsHaveNoDash(y);
    DigitsHaveNoDash(m);
    DigitsHaveNoDash(d);
    assert forall i :: 0 <= i < |"+" + m| ==> ("+" + m)[i] == if i == 0 then '+' else m[i - 1];
  }

  /** A plus sign before the day is ignored: "2024-12-+25" lists the window of "2024-12-25". */
  lemma SignedDay(c: CivilDate, timezone: string)
    requires 0 <= c.year && 0 <= c.month && 0 <= c.day
    ensures DateToGmtRange(Fixed(c.year, 4) + "-" + Fixed(c.month, 2) + "-+" + Fixed(c.day, 2), timezone)
         == DateToGmtRange(DateText(c), timezone)
  {
    var y, m, d := Fixed(c.year, 4), Fixed(c.month, 2), Fixed(c.day, 2);
    DigitsHaveNoDash(y);
    DigitsHaveNoDash(m);
    SignedPiece(d);
    assert y + "-" + m + "-+" + d == y + "-" + m + "-" + ("+" + d);
    FieldsOfPieces(y, m, "+" + d);
    FieldsOfPieces(y, m, d);
    NumberPlusSign(d);
    SameFieldsSameRange(y + "-" + m + "-+" + d, DateText(c), timezone);
  }

  lemma SignedPiece(d: string)
    requires AllDigits(d)
    ensures '-' !in d && '-' !in "+" + d
  {
    DigitsHaveNoDash(d);
    assert forall i :: 0 <= i < |"+" + d| ==> ("+" + d)[i] == if i == 0 then '+' else d[i - 1];
  }

  /** A fraction of the day is dropped: "2024-12-25.75" lists the window of "2024-12-25". */
  lemma FractionalDay(c: CivilDate, f: string, timezone: string)
    requires 0 <= c.year && 0 <= c.month && 0 <= c.day && AllDigits(f)
    ensures DateToGmtRange(DateText(c) + "." + f, timezone) == DateToGmtRange(DateText(c), timezone)
  {
    var y, m, d := Fixed(c.year, 4), Fixed(c.month, 2), Fixed(c.day, 2);
    DigitsHaveNoDash(f);
    assert '-' !in "." + f;
    ExtendDay(c, "." + f);
    ExtendDay(c, []);
    assert DateText(c) + [] == DateText(c) && d + [] == d;
    assert DateText(c) + "." + f == DateText(c) + ("." + f) && d + "." + f == d + ("." + f);
    FieldsOfPieces(y, m, d + "." + f);
    FieldsOfPieces(y, m, d);
    FractionArgument(d, f);
    DigitsArgument(d);
    SameFieldsSameRange(DateText(c) + "." + f, DateText(c), timezone);
  }

  /** Date.UTC at h o'clock and at h + 24 o'clock of the valid date numbered z, from year 100 on. */
  lemma DateUtcAtDay(c: CivilDate, z: int, h: int)
    requires IsValid(c) && 100 <= c.year && DayOf(c) == z
    ensures DateUtc(Some(c.year), Some(c.month - 1), Some(c.day), h) == TimeClip(z * 86400000 + h * 3600000)
    ensures DateUtc(Some(c.year), Some(c.month - 1), Some(c.day), h + 24)
         == TimeClip((z + 1) * 86400000 + h * 3600000)
  {
    DateUtcOfCivil(c, h);
    DateUtcOfCivil(c, h + 24);
  }

  /** midnight in America/Chicago, at the fixed offset of six hours, is 06:00 UTC. */
  lemma ChicagoWindow(c: CivilDate)
    requires IsValid(c) && 100 <= c.year && NextDay(c).year <= 9999
    ensures DateToGmtRange(DateText(c), ChicagoZone)
         == Ok(Window(DateText(c) + "T06:00:00.000Z", DateText(NextDay(c)) + "T06:00:00.000Z"))
  {
    WindowOfDate(c, 6);
    StampAtSix(DateText(c));
    StampAtSix(DateText(NextDay(c)));
  }

  lemma StampAtSix(date: string)
    ensures date + "T" + Fixed(6, 2) + ":00:00.000Z" == date + "T06:00:00.000Z"
  {
    FixedTwo(6);
  }

  lemma StampAtMidnight(date: string)
    ensures date + "T" + Fixed(0, 2) + ":00:00.000Z" == date + "T00:00:00.000Z"
  {
    FixedZero();
  }

  /** Every other zone is treated as UTC: the window runs from midnight to midnight UTC. */
  lemma OtherZoneWindow(c: CivilDate, timezone: string)
    requires IsValid(c) && 100 <= c.year && NextDay(c).year <= 9999 && timezone != ChicagoZone
    ensures DateToGmtRange(DateText(c), timezone)
         == Ok(Window(DateText(c) + "T00:00:00.000Z", DateText(NextDay(c)) + "T00:00:00.000Z"))
  {
    WindowOfDate(c, 0);
    StampAtMidnight(DateText(c));
    StampAtMidnight(DateText(NextDay(c)));
  }

  /** The window of a day ends exactly where the window of the next day starts. */
  lemma WindowsAdjacent(c: CivilDate, timezone: string)
    requires IsValid(c) && 100 <= c.year && NextDay(NextDay(c)).year <= 9999
    ensures DateToGmtRange(DateText(c), timezone).Ok? && DateToGmtRange(DateText(NextDay(c)), timezone).Ok?
    ensures DateToGmtRange(DateText(c), timezone).value.endGmt
         == DateToGmtRange(DateText(NextDay(c)), timezone).value.startGmt
  {
    var h: nat := -TimezoneOffset(timezone);
    NextDayYear(c);
    NextDayYear(NextDay(c));
    WindowOfDate(c, h);
    WindowOfDate(NextDay(c), h);
  }

  lemma FixedTwo(n: nat)
    requires n < 100
    ensures Fixed(n, 2) == [DigitChar(n / 10), DigitChar(n % 10)]
  {
    FixedOne(n / 10);
    FixedSnoc(n, 1);
  }

  lemma FixedFour(n: nat)
    requires n < 10000
    ensures Fixed(n, 4)
         == [DigitChar(n / 10 / 10 / 10), DigitChar(n / 10 / 10 % 10), DigitChar(n / 10 % 10), DigitChar(n % 10)]
  {
    FixedSnoc(n, 3);
    FixedSnoc(n / 10, 2);
    FixedTwo(n / 10 / 10);
  }

  /** The window of New Year's Eve ends at the start of the next year's first day. */
  lemma YearEndWindow(y: int)
    requires 100 <= y <= 9998
    ensures DateToGmtRange(DateText(CivilDate(y, 12, 31)), ChicagoZone)
         == Ok(Window(DateText(CivilDate(y, 12, 31)) + "T06:00:00.000Z",
                      DateText(CivilDate(y + 1, 1, 1)) + "T06:00:00.000Z"))
  {
    var c := CivilDate(y, 12, 31);
    assert NextDay(c) == CivilDate(y + 1, 1, 1);
    ChicagoWindow(c);
  }

  /** In a leap year the window of February 28th ends on the 29th, otherwise on March 1st. */
  lemma FebruaryWindow(y: int, timezone: string)
    requires 100 <= y <= 9999 && timezone != ChicagoZone
    ensures DateToGmtRange(DateText(CivilDate(y, 2, 28)), timezone)
         == Ok(Window(DateText(CivilDate(y, 2, 28)) + "T00:00:00.000Z",
                      DateText(if IsLeapYear(y) then CivilDate(y, 2, 29) else CivilDate(y, 3, 1)) + "T00:00:00.000Z"))
  {
    OtherZoneWindow(CivilDate(y, 2, 28), timezone);
  }

  /** A date whose year, month or day is not a number gives Date.UTC NaN, and toISOString throws. */
  lemma MalformedDate(localDate: string, timezone: string)
    requires DateFields(localDate).year.None? || DateFields(localDate).monthIndex.None?
          || DateFields(localDate).day.None?
    ensures DateToGmtRange(localDate, timezone) == Err(InvalidTimeValue)
  {
  }

  /**
   * The two texts of a window are the toISOString of the two Date.UTC calls, at minus the offset
   * o'clock and 24 hours later, and read back as those instants; the range fails exactly when
   * either call is NaN.
   */
  lemma RangeInstants(localDate: string, timezone: string)
    ensures var f, h := DateFields(localDate), -TimezoneOffset(timezone);
      var start, end := DateUtc(f.year, f.monthIndex, f.day, h), DateUtc(f.year, f.monthIndex, f.day, h + 24);
      (DateToGmtRange(localDate, timezone).Err? <==> start.None? || end.None?)
      && (DateToGmtRange(localDate, timezone).Ok? ==>
            ParseIso(DateToGmtRange(localDate, timezone).value.startGmt) == start
            && ParseIso(DateToGmtRange(localDate, timezone).value.endGmt) == end)
  {
    var f, h := DateFields(localDate), -TimezoneOffset(timezone);
    ToIsoStringReads(DateUtc(f.year, f.monthIndex, f.day, h));
    ToIsoStringReads(DateUtc(f.year, f.monthIndex, f.day, h + 24));
  }

  /** Words are not numbers. */
  lemma NotADate(localDate: string, timezone: string)
    requires localDate == "not-a-date"
    ensures DateToGmtRange(localDate, timezone) == Err(InvalidTimeValue)
  {
    assert localDate == "not" + ['-'] + "a" + ['-'] + "date";
    SplitThree("not", "a", "date", '-');
    NumberOfWord("not");
    MalformedDate(localDate, timezone);
  }

  /** A date without its day is rejected. */
  lemma MissingDay(localDate: string, timezone: string)
    requires localDate == "2024-12"
    ensures DateToGmtRange(localDate, timezone) == Err(InvalidTimeValue)
  {
    assert localDate == "2024" + ['-'] + "12";
    SplitPiece("12", '-');
    SplitHead("2024", '-', "12");
    MalformedDate(localDate, timezone);
  }

  /**
   * Date.UTC reads the years 0..99 as 1900..1999: a date whose year reads as y < 100 ("0024-12-25",
   * or "24-12-25") gives the window of the same month and day in 1900 + y, the date c.
   */
  lemma TwoDigitYear(localDate: string, timezone: string, y: int, c: CivilDate, h: nat)
    requires 0 <= y <= 99 && c.year == y + 1900 && IsValid(c)
    requires DateFields(localDate) == UtcFields(Some(y), Some(c.month - 1), Some(c.day))
    requires h as int == -TimezoneOffset(timezone)
    ensures DateToGmtRange(localDate, timezone) == Ok(Window(HourStamp(c, h), HourStamp(NextDay(c), h)))
  {
    WindowOfTwoDigitYear(y, c, h);
  }

  lemma WindowOfTwoDigitYear(y: int, c: CivilDate, h: nat)
    requires 0 <= y <= 99 && c.year == y + 1900 && IsValid(c) && h < 24
    ensures WindowOfFields(Some(y), Some(c.month - 1), Some(c.day), h)
         == Ok(Window(HourStamp(c, h), HourStamp(NextDay(c), h)))
  {
    NextDayYear(c);
    WindowOfCivil(c, h);
    WindowOfFullYear(y, Some(c.month - 1), Some(c.day), h, Ok(Window(HourStamp(c, h), HourStamp(NextDay(c), h))));
  }

  lemma WindowOfFullYear(y: int, monthIndex: Option<int>, day: Option<int>, startHour: int, w: Result<Window, StoreError>)
    requires 0 <= y <= 99 && WindowOfFields(Some(y + 1900), monthIndex, day, startHour) == w
    ensures WindowOfFields(Some(y), monthIndex, day, startHour) == w
  {
    DateUtcFullYear(y, monthIndex, day, startHour);
    DateUtcFullYear(y, monthIndex, day, startHour + 24);
  }

  lemma DateUtcFullYear(y: int, monthIndex: Option<int>, day: Option<int>, hours: int)
    requires 0 <= y <= 99
    ensures DateUtc(Some(y), monthIndex, day, hours) == DateUtc(Some(y + 1900), monthIndex, day, hours)
  {
  }

  // ---------------------------------------------------------------------
  // Selecting the rows of a window

  /** sighted_at >= startGMT AND sighted_at < endGMT, compared as text (BINARY collation). */
  predicate InWindow(stamp: string, w: Window) {
    !TextLess(stamp, w.startGmt) && TextLess(stamp, w.endGmt)
  }

  /**
   * The window of a valid date c from year 100 on (whose next day is still a four-digit year) is
   * the pair of toISOString texts of the instants h o'clock UTC on c and h o'clock UTC on the next
   * day, h being minus the zone offset; both instants fall in the four-digit years.
   */
  lemma DateWindow(c: CivilDate, timezone: string, h: nat, a: int, b: int)
    requires IsValid(c) && 100 <= c.year && NextDay(c).year <= 9999
    requires h as int == -TimezoneOffset(timezone)
    requires a == DayOf(c) * 86400000 + h * 3600000 && b == (DayOf(c) + 1) * 86400000 + h * 3600000
    ensures -MaxTimeValue <= a <= MaxTimeValue && -MaxTimeValue <= b <= MaxTimeValue
    ensures DateToGmtRange(DateText(c), timezone) == Ok(Window(IsoText(a), IsoText(b)))
  {
    DateTextNumbers(c);
    InstantWindow(c, NextDay(c), h, DayOf(c), a, b);
  }

  lemma InstantWindow(c: CivilDate, n: CivilDate, h: nat, z: int, a: int, b: int)
    requires IsValid(c) && 100 <= c.year && n == NextDay(c) && z == DayOf(c) && n.year <= 9999 && h < 24
    requires a == z * 86400000 + h * 3600000 && b == (z + 1) * 86400000 + h * 3600000
    ensures -MaxTimeValue <= a <= MaxTimeValue && -MaxTimeValue <= b <= MaxTimeValue
    ensures WindowOfFields(Some(c.year), Some(c.month - 1), Some(c.day), h) == Ok(Window(IsoText(a), IsoText(b)))
  {
    DayNumbers(c, n, z);
    InstantsOfFields(c, z, h, a, b);
  }

  /**
   * For a timestamp written by toISOString in the years 0..9999, the window of h o'clock UTC on
   * the date c (day number z) to h o'clock UTC on the next day selects exactly the instants in
   * between, that is the instants whose date, h hours earlier, is c.
   */
  lemma WindowFilter(t: TimeValue, c: CivilDate, h: nat, z: int, a: int, b: int)
    requires CivilFromDays(z) == c && 100 <= c.year && CivilFromDays(z + 1).year <= 9999
    requires h < 24 && 0 <= YearOf(t) <= 9999
    requires a == z * 86400000 + h * 3600000 && b == (z + 1) * 86400000 + h * 3600000
    ensures -MaxTimeValue <= a <= MaxTimeValue && -MaxTimeValue <= b <= MaxTimeValue
    ensures InWindow(IsoText(t), Window(IsoText(a), IsoText(b))) <==> a <= t < b
    ensures InWindow(IsoText(t), Window(IsoText(a), IsoText(b))) <==> CivilFromDays((t - h * 3600000) / 86400000) == c
  {
    var n := CivilFromDays(z + 1);
    CivilFromDaysMonotone(z, z + 1);
    DayOfRange(c);
    DayOfRange(n);
    WindowBracket(t, c, n, h, z, a, b);
    LocalDay(t, h, z, c);
  }

  lemma WindowBracket(t: TimeValue, c: CivilDate, n: CivilDate, h: nat, z: int, a: int, b: int)
    requires CivilFromDays(z) == c && CivilFromDays(z + 1) == n
    requires 0 <= c.year <= n.year <= 9999 && -800000 < z && z + 1 < 3000000
    requires h < 24 && 0 <= YearOf(t) <= 9999
    requires a == z * 86400000 + h * 3600000 && b == (z + 1) * 86400000 + h * 3600000
    ensures -MaxTimeValue <= a <= MaxTimeValue && -MaxTimeValue <= b <= MaxTimeValue
    ensures InWindow(IsoText(t), Window(IsoText(a), IsoText(b))) <==> a <= t < b
  {
    InstantYears(c, n, z, h, a, b);
    InWindowOrder(t, a, b);
  }

  lemma InstantYears(c: CivilDate, n: CivilDate, z: int, h: nat, a: int, b: int)
    requires CivilFromDays(z) == c && CivilFromDays(z + 1) == n
    requires 0 <= c.year <= n.year <= 9999 && -800000 < z && z + 1 < 3000000 && h < 24
    requires a == z * 86400000 + h * 3600000 && b == (z + 1) * 86400000 + h * 3600000
    ensures -MaxTimeValue <= a <= MaxTimeValue && -MaxTimeValue <= b <= MaxTimeValue
    ensures 0 <= YearOf(a) <= 9999 && 0 <= YearOf(b) <= 9999
  {
    YearAtDayHour(z, h, c, a);
    YearAtDayHour(z + 1, h, n, b);
  }

  lemma InstantsOfFields(c: CivilDate, z: int, h: nat, a: int, b: int)
    requires IsValid(c) && 100 <= c.year && DayOf(c) == z && -800000 < z < 3000000 && h < 24
    requires a == z * 86400000 + h * 3600000 && b == (z + 1) * 86400000 + h * 3600000
    ensures -MaxTimeValue <= a <= MaxTimeValue && -MaxTimeValue <= b <= MaxTimeValue
    ensures WindowOfFields(Some(c.year), Some(c.month - 1), Some(c.day), h) == Ok(Window(IsoText(a), IsoText(b)))
  {
    DateUtcAtDay(c, z, h);
    WindowOfInstants(Some(c.year), Some(c.month - 1), Some(c.day), h, a, b);
  }

  /** Between toISOString texts of the years 0..9999, the window test is the instant test. */
  lemma InWindowOrder(t: TimeValue, a: TimeValue, b: TimeValue)
    requires 0 <= YearOf(t) <= 9999 && 0 <= YearOf(a) <= 9999 && 0 <= YearOf(b) <= 9999
    ensures InWindow(IsoText(t), Window(IsoText(a), IsoText(b))) <==> a <= t < b
  {
    IsoTextOrder(t, a);
    IsoTextOrder(a, t);
    IsoTextOrder(t, b);
  }

  /** The instants from h o'clock UTC on day number z to h o'clock on the next are those whose date, h hours earlier, is that day. */
  lemma LocalDay(t: int, h: nat, z: int, c: CivilDate)
    requires CivilFromDays(z) == c
    ensures z * 86400000 + h * 3600000 <= t < (z + 1) * 86400000 + h * 3600000
        <==> CivilFromDays((t - h * 3600000) / 86400000) == c
  {
    var x := (t - h * 3600000) / 86400000;
    assert DayOf(CivilFromDays(x)) == x;
    assert z * 86400000 + h * 3600000 <= t < (z + 1) * 86400000 + h * 3600000 <==> x == z;
  }

  /** The rows of a window, in table order. */
  function Matching(rows: seq<SightingRow>, w: Window): (r: seq<SightingRow>)
    ensures forall row :: row in r <==> row in rows && InWindow(row.sightedAt, w)
    ensures forall row :: multiset(r)[row] == if InWindow(row.sightedAt, w) then multiset(rows)[row] else 0
    ensures |r| <= |rows|
    decreases |rows|
  {
    if rows == [] then []
    else
      var prev := Matching(rows[..|rows| - 1], w);
      var last := rows[|rows| - 1];
      assert rows == rows[..|rows| - 1] + [last];
      if InWindow(last.sightedAt, w) then prev + [last] else prev
  }

  /** Ids strictly increase along the rows: the order of a scan of the table by rowid. */
  predicate IdsAscending(rows: seq<SightingRow>) {
    forall i, j :: 0 <= i < j < |rows| ==> rows[i].id < rows[j].id
  }

  /** Selecting keeps the rows in the table's order. */
  lemma {:induction false} MatchingAscending(rows: seq<SightingRow>, w: Window)
    requires IdsAscending(rows)
    ensures IdsAscending(Matching(rows, w))
    decreases |rows|
  {
    if rows != [] {
      var init := rows[..|rows| - 1];
      var last := rows[|rows| - 1];
      BeforeLast(rows);
      MatchingAscending(init, w);
      if InWindow(last.sightedAt, w) {
        AppendAscending(Matching(init, w), last);
      }
    }
  }

  /** The rows before the last are ascending, and have smaller ids than the last. */
  lemma BeforeLast(rows: seq<SightingRow>)
    requires IdsAscending(rows) && rows != []
    ensures IdsAscending(rows[..|rows| - 1])
    ensures forall row :: row in rows[..|rows| - 1] ==> row.id < rows[|rows| - 1].id
  {
    var init := rows[..|rows| - 1];
    assert forall i :: 0 <= i < |init| ==> init[i] == rows[i];
  }

  lemma AppendAscending(prev: seq<SightingRow>, last: SightingRow)
    requires IdsAscending(prev) && forall row :: row in prev ==> row.id < last.id
    ensures IdsAscending(prev + [last])
  {
    var r := prev + [last];
    forall i, j | 0 <= i < j < |r|
      ensures r[i].id < r[j].id
    {
      assert r[i] == prev[i];
      if j < |prev| {
        assert r[j] == prev[j];
      }
    }
  }

  /** What getSightings returns for a window: each matching row with its ages, in table order. */
  lemma ListedSightings(rows: seq<SightingRow>, w: Window, now: TimeValue)
    requires IdsAscending(rows)
    ensures |MapAges(Matching(rows, w), now)| <= |rows|
    ensures forall i, j :: 0 <= i < j < |MapAges(Matching(rows, w), now)| ==>
      MapAges(Matching(rows, w), now)[i].row.id < MapAges(Matching(rows, w), now)[j].row.id
    ensures forall s :: s in MapAges(Matching(rows, w), now) <==>
      exists row :: row in rows && InWindow(row.sightedAt, w) && s == AddAgeFields(row, now)
  {
    var selected := Matching(rows, w);
    MatchingAscending(rows, w);
    MapAgesOf(selected, now);
  }

  /** rows.map(addAgeFields). */
  function MapAges(rows: seq<SightingRow>, now: TimeValue): seq<Sighting> {
    seq(|rows|, i requires 0 <= i < |rows| => AddAgeFields(rows[i], now))
  }

  /** The sightings of a window, with their ages. */
  lemma {:induction false} MapAgesOf(rows: seq<SightingRow>, now: TimeValue)
    ensures |MapAges(rows, now)| == |rows|
    ensures forall s :: s in MapAges(rows, now) <==> exists row :: row in rows && s == AddAgeFields(row, now)
  {
    var m := MapAges(rows, now);
    forall s | s in m ensures exists row :: row in rows && s == AddAgeFields(row, now) {
      var i :| 0 <= i < |m| && m[i] == s;
      assert rows[i] in rows;
    }
    forall row | row in rows ensures AddAgeFields(row, now) in m {
      var i :| 0 <= i < |rows| && rows[i] == row;
      assert m[i] == AddAgeFields(row, now);
    }
  }

  // ---------------------------------------------------------------------
  // The table

  /** The row createSighting stores: the four input fields, the issued id and the insert-time clock as text. */
  function NewRow(input: SightingInput, id: int, stamped: TimeValue): SightingRow {
    SightingRow(id, input.latitude, input.longitude, input.sightedAt, IsoText(stamped), input.details)
  }

  /** The timezone a client submits has no effect on what is stored. */
  lemma TimezoneNotStored(input: SightingInput, zone: JsonValue, id: int, stamped: TimeValue)
    ensures NewRow(input.(timezone := zone), id, stamped) == NewRow(input, id, stamped)
  {
  }

  /** Read less than a minute after its insert, a new row's reported_age is 0. */
  lemma FreshReportedAge(input: SightingInput, id: int, stamped: TimeValue, later: TimeValue)
    requires stamped <= later < stamped + 60000
    ensures AddAgeFields(NewRow(input, id, stamped), later).reportedAge == Some(0)
  {
    ParseIsoText(stamped);
    AgeWithinMinute(later, NewRow(input, id, stamped).reportedAt, stamped);
  }

  lemma AgeWithinMinute(now: TimeValue, stamp: string, t: TimeValue)
    requires ParseIso(stamp) == Some(t) && t <= now < t + 60000
    ensures AgeMinutes(now, stamp) == Some(0)
  {
    MinuteOld(now, t);
  }

  lemma MinuteOld(now: TimeValue, t: TimeValue)
    requires t <= now < t + 60000
    ensures AgeOf(now, Some(t)) == Some(0)
  {
  }

  /**
   * The table as AUTOINCREMENT keeps it: every stored id lies in 1..lastId, the largest
   * id ever issued, and ids grow along the table (rows are only ever appended).
   */
  predicate ValidTable(rows: seq<SightingRow>, lastId: int) {
    0 <= lastId <= MaxRowId
    && (forall i :: 0 <= i < |rows| ==> 1 <= rows[i].id <= lastId)
    && (forall i, j :: 0 <= i < j < |rows| ==> rows[i].id < rows[j].id)
  }

  /** SELECT * FROM sightings WHERE id = ?: the row with that id, if there is one. */
  function FindById(rows: seq<SightingRow>, id: int): (r: Option<SightingRow>)
    ensures r.Some? ==> r.value in rows && r.value.id == id
    ensures r.None? <==> forall i :: 0 <= i < |rows| ==> rows[i].id != id
    decreases |rows|
  {
    if rows == [] then None
    else if rows[0].id == id then Some(rows[0])
    else
      var r := FindById(rows[1..], id);
      assert forall i :: 1 <= i < |rows| ==> rows[i] == rows[1..][i - 1];
      r
  }

  /** Ids are unique in a valid table, so the row found is the only one with its id. */
  lemma UniqueIds(rows: seq<SightingRow>, lastId: int, row: SightingRow)
    requires ValidTable(rows, lastId) && row in rows
    ensures FindById(rows, row.id) == Some(row)
  {
    var r := FindById(rows, row.id);
    var i :| 0 <= i < |rows| && rows[i] == row;
    var j :| 0 <= j < |rows| && rows[j] == r.value;
    assert !(i < j) && !(j < i);
  }

  /** An id the counter never issued is not in the table. */
  lemma UnissuedId(rows: seq<SightingRow>, lastId: int, id: int)
    requires ValidTable(rows, lastId) && (id < 1 || lastId < id)
    ensures FindById(rows, id) == None
  {
  }

  /** Appending the row with the next id keeps the table valid; its id exceeds every stored one. */
  lemma AppendNext(rows: seq<SightingRow>, lastId: int, row: SightingRow)
    requires ValidTable(rows, lastId) && lastId < MaxRowId && row.id == lastId + 1
    ensures ValidTable(rows + [row], lastId + 1)
    ensures forall i :: 0 <= i < |rows| ==> rows[i].id < row.id
  {
  }

  /** The insert of the next row: the table stays valid and the new id finds the new row. */
  lemma InsertNext(rows: seq<SightingRow>, lastId: int, row: SightingRow)
    requires ValidTable(rows, lastId) && lastId < MaxRowId && row.id == lastId + 1
    ensures ValidTable(rows + [row], lastId + 1) && FindById(rows + [row], lastId + 1) == Some(row)
    ensures forall i :: 0 <= i < |rows| ==> rows[i].id < row.id
  {
    AppendNext(rows, lastId, row);
    FindAfterAppend(rows, lastId, row, row.id);
  }

  /** After the append, the new id finds the new row and every other id finds what it found before. */
  lemma FindAfterAppend(rows: seq<SightingRow>, lastId: int, row: SightingRow, id: int)
    requires ValidTable(rows, lastId) && row.id == lastId + 1
    ensures FindById(rows + [row], id) == if id == row.id then Some(row) else FindById(rows, id)
    decreases |rows|
  {
    if rows != [] {
      assert (rows + [row])[1..] == rows[1..] + [row];
      assert ValidTable(rows[1..], lastId);
      FindAfterAppend(rows[1..], lastId, row, id);
    }
  }

  /** What getTodayInTimezone gives: today's date text in a zone, or InvalidTimeZone for a zone Intl rejects. */
  type Today = r: Result<string, StoreError> | r.Err? ==> r.error == InvalidTimeZone witness Ok("")

  /** A missing or empty date falls back to today's date in the zone. */
  function DateToUse(date: Option<string>, today: Today): (d: Result<string, StoreError>)
    ensures date.Some? && date.value != "" ==> d == Ok(date.value)
    ensures (date.None? || date.value == "") ==> d == today
  {
    if date.Some? && date.value != "" then Ok(date.value) else today
  }

  /** getSightings' default parameter: only an omitted timezone becomes America/Chicago; "" stays "". */
  function StoreZone(timezone: Option<string>): (zone: string)
    ensures timezone.None? ==> zone == ChicagoZone
    ensures timezone.Some? ==> zone == timezone.value
  {
    if timezone.Some? then timezone.value else ChicagoZone
  }

  /** The window getSightings selects: that of the date to use, in the zone's fixed offset. */
  function ListingWindow(date: Option<string>, timezone: string, today: Today)
    : (r: Result<Window, StoreError>)
    ensures r.Err? ==> r.error == InvalidTimeValue || r.error == InvalidTimeZone
    ensures r.Err? ==> r == Err(InvalidTimeValue) || ((date.None? || date.value == "") && today == Err(r.error))
  {
    match DateToUse(date, today)
    case Err(e) => Err(e)
    case Ok(d) => DateToGmtRange(d, timezone)
  }

  /**
   * The sightings table with its AUTOINCREMENT counter (the sqlite_sequence entry):
   * rows in insertion order, and the largest id ever issued.
   */
  class Database {
    var rows: seq<SightingRow>
    var lastId: int

    ghost predicate Valid()
      reads this
    {
      ValidTable(rows, lastId)
    }

    /** A new database file: the table is created empty. */
    constructor ()
      ensures Valid() && rows == [] && lastId == 0
    {
      rows := [];
      lastId := 0;
    }

    /**
     * createSighting: insert with the next id and reported_at the clock reading `stamped`, read the row
     * back and add its ages at the later reading `now`. When the counter is exhausted SQLite fails with
     * SQLITE_FULL and nothing changes.
     */
    method CreateSighting(input: SightingInput, stamped: TimeValue, now: TimeValue)
      returns (r: Result<Sighting, StoreError>)
      requires Valid()
      modifies this
      ensures Valid()
      ensures old(lastId) == MaxRowId ==> r == Err(TableFull) && rows == old(rows) && lastId == old(lastId)
      ensures old(lastId) < MaxRowId ==>
        lastId == old(lastId) + 1
        && rows == old(rows) + [NewRow(input, lastId, stamped)]
        && r == Ok(AddAgeFields(NewRow(input, lastId, stamped), now))
      ensures r.Ok? ==>
        r.value.row.id == lastId && FindById(rows, lastId) == Some(r.value.row)
        && (forall i :: 0 <= i < |old(rows)| ==> old(rows)[i].id < r.value.row.id)
        && r.value.row.latitude == input.latitude && r.value.row.longitude == input.longitude
        && r.value.row.sightedAt == input.sightedAt && r.value.row.details == input.details
        && r.value.row.reportedAt == IsoText(stamped)
    {
      if lastId == MaxRowId {
        return Err(TableFull);
      }
      var row := NewRow(input, lastId + 1, stamped);
      InsertNext(rows, lastId, row);
      rows := rows + [row];
      lastId := lastId + 1;
      var stored := FindById(rows, lastId);
      r := Ok(AddAgeFields(stored.value, now));
    }

    /**
     * getSightings: the rows whose sighted_at lies in the window of the date to use, in table order,
     * with their ages. today is getTodayInTimezone of the zone used. An unknown zone when today is
     * needed, or a date Date.UTC cannot read, is an error.
     */
    method GetSightings(date: Option<string>, timezone: Option<string>, today: Today,
                        now: TimeValue)
      returns (r: Result<seq<Sighting>, StoreError>)
      requires Valid()
      ensures r.Err? <==> ListingWindow(date, StoreZone(timezone), today).Err?
      ensures r.Err? ==> r.error == ListingWindow(date, StoreZone(timezone), today).error
      ensures r.Ok? ==> r.value == MapAges(Matching(rows, ListingWindow(date, StoreZone(timezone), today).value), now)
      ensures r.Ok? ==>
        |r.value| <= |rows|
        && (forall i, j :: 0 <= i < j < |r.value| ==> r.value[i].row.id < r.value[j].row.id)
        && forall s :: s in r.value <==>
             exists row :: row in rows && InWindow(row.sightedAt, ListingWindow(date, StoreZone(timezone), today).value)
                        && s == AddAgeFields(row, now)
    {
      var zone := StoreZone(timezone);
      var dateToUse := DateToUse(date, today);
      if dateToUse.Err? {
        return Err(dateToUse.error);
      }
      var range := DateToGmtRange(dateToUse.value, zone);
      if range.Err? {
        return Err(range.error);
      }
      ListedSightings(rows, range.value, now);
      r := Ok(MapAges(Matching(rows, range.value), now));
    }

    /** getSightingById: the row with that id and its ages, or nothing. */
    method GetSightingById(id: int, now: TimeValue) returns (r: Option<Sighting>)
      requires Valid()
      ensures r.Some? <==> exists i :: 0 <= i < |rows| && rows[i].id == id
      ensures r.Some? ==> r.value.row in rows && r.value.row.id == id && r.value == AddAgeFields(r.value.row, now)
      ensures (id < 1 || lastId < id) ==> r.None?
    {
      var row := FindById(rows, id);
      if row.None? {
        return None;
      }
      r := Some(AddAgeFields(row.value, now));
    }
  }
}
