/**
 * The part of JavaScript's Date the sighting store relies on: time values,
 * TimeClip, Date.UTC, toISOString and reading an ISO timestamp back
 * (Date.parse restricted to the exact text toISOString produces).
 * A Date that holds NaN is represented by None.
 * Time values are milliseconds from the epoch: 1000 per second, 60000 per
 * minute, 3600000 per hour, 86400000 per day (written out as literals, so
 * that every product and quotient below has a constant operand).
 */
module JsDate {
  import opened Wrappers
  import opened Calendar
  import opened Decimal
  import opened Text
  import opened Fields

  /** The largest distance from the epoch, in milliseconds, a Date can hold. */
  const MaxTimeValue := 8640000000000000

  type TimeValue = t: int | -MaxTimeValue <= t <= MaxTimeValue

  /** TimeClip: instants beyond the representable range become NaN. */
  function TimeClip(t: int): (r: Option<TimeValue>)
    ensures r.Some? <==> -MaxTimeValue <= t <= MaxTimeValue
    ensures r.Some? ==> r.value == t
  {
    if -MaxTimeValue <= t <= MaxTimeValue then Some(t) else None
  }

  /** MakeFullYear: the years 0..99 denote 1900..1999. */
  function MakeFullYear(y: int): int {
    if 0 <= y <= 99 then 1900 + y else y
  }

  /** Date.UTC(year, month, date, hours, 0, 0, 0); None stands for a NaN argument or result. */
  function DateUtc(year: Option<int>, month: Option<int>, date: Option<int>, hours: int): (r: Option<TimeValue>)
    ensures r.Some? ==> year.Some? && month.Some? && date.Some?
  {
    if year.None? || month.None? || date.None? then None
    else TimeClip(MakeDay(MakeFullYear(year.value), month.value, date.value) * 86400000 + hours * 3600000)
  }

  /** Date.UTC rolls 24 extra hours over into the next day. */
  lemma DateUtcHourOverflow(year: Option<int>, month: Option<int>, date: int, hours: int)
    ensures DateUtc(year, month, Some(date), hours + 24) == DateUtc(year, month, Some(date + 1), hours)
  {
  }

  /** For a valid civil date from year 100 on, Date.UTC is its day number in milliseconds plus the hours. */
  lemma DateUtcOfCivil(c: CivilDate, hours: int)
    requires IsValid(c) && c.year >= 100
    ensures DateUtc(Some(c.year), Some(c.month - 1), Some(c.day), hours)
         == TimeClip(DayOf(c) * 86400000 + hours * 3600000)
  {
    assert MakeFullYear(c.year) == c.year;
    MakeDayInYear(c.year, c.month - 1, c.day);
  }

  const IsoLayout: seq<Slot> :=
    [Slot("", 4), Slot("-", 2), Slot("-", 2), Slot("T", 2), Slot(":", 2), Slot(":", 2), Slot(".", 3)]

  /** The expanded-year layout: a sign and six year digits. */
  function ExpandedLayout(sign: char): seq<Slot> {
    [Slot([sign], 6)] + IsoLayout[1..]
  }

  /** Hour, minute, second and millisecond of a time of day. */
  function TimeFields(ms: int): (r: seq<nat>)
    requires 0 <= ms < 86400000
    ensures |r| == 4 && r[0] < 24 && r[1] < 60 && r[2] < 60 && r[3] < 1000
    ensures ms == r[0] * 3600000 + r[1] * 60000 + r[2] * 1000 + r[3]
  {
    TimeOfDaySplit(ms);
    [ms / 3600000, ms / 60000 % 60, ms / 1000 % 60, ms % 1000]
  }

  lemma TimeOfDaySplit(ms: int)
    requires 0 <= ms < 86400000
    ensures ms / 3600000 < 24
    ensures ms == ms / 3600000 * 3600000 + ms / 60000 % 60 * 60000 + ms / 1000 % 60 * 1000 + ms % 1000
  {
    var s, m := ms / 1000, ms / 60000;
    assert ms == 1000 * s + ms % 1000;
    assert s / 60 == m;
    assert s == 60 * m + s % 60;
    assert m / 60 == ms / 3600000;
    assert m == 60 * (m / 60) + m % 60;
  }

  /** The UTC year of t. */
  function YearOf(t: TimeValue): int {
    CivilFromDays(t / 86400000).year
  }

  /** Month, day, hour, minute, second and millisecond of t in UTC. */
  function RestFields(t: TimeValue): (r: seq<nat>)
    ensures |r| == 6 && 1 <= r[0] <= 12 && 1 <= r[1] <= 31
    ensures r[2] < 24 && r[3] < 60 && r[4] < 60 && r[5] < 1000
  {
    var c := CivilFromDays(t / 86400000);
    [c.month, c.day] + TimeFields(t % 86400000)
  }

  function Abs(x: int): nat {
    if x < 0 then -x else x
  }

  /** The years a time value can fall in have at most six digits. */
  lemma YearRange(t: TimeValue)
    ensures -1000000 < YearOf(t) < 1000000
  {
    var z := t / 86400000;
    var c := CivilFromDays(z);
    assert -100000000 <= z <= 100000000;
    YearFromDayUnique(z, c.year) by {
      MakeDayInYear(c.year, c.month - 1, c.day);
      DayOfBeforeNextYear(c);
    }
    DayFromYearBounds(c.year);
    DayFromYearBounds(c.year + 1);
  }

  /** toISOString writes years 0..9999 with four digits, others with a sign and six digits. */
  function LayoutForYear(y: int): seq<Slot> {
    if 0 <= y <= 9999 then IsoLayout else ExpandedLayout(if y < 0 then '-' else '+')
  }

  function IsoValues(t: TimeValue): (r: seq<nat>)
    ensures |r| == 7
  {
    [Abs(YearOf(t))] + RestFields(t)
  }

  lemma IsoFits(t: TimeValue)
    ensures Fits(LayoutForYear(YearOf(t)), IsoValues(t))
  {
    YearRange(t);
    FieldsFit(YearOf(t), RestFields(t));
  }

  lemma FieldsFit(y: int, rest: seq<nat>)
    requires -1000000 < y < 1000000 && |rest| == 6 && rest[0] <= 12 && rest[1] <= 31
    requires rest[2] < 24 && rest[3] < 60 && rest[4] < 60 && rest[5] < 1000
    ensures Fits(LayoutForYear(y), [Abs(y)] + rest)
  {
    RestFits(rest);
    assert Pow10(4) == 10000 && Pow10(6) == 1000000;
    assert IsoLayout == [IsoLayout[0]] + IsoLayout[1..];
    if 0 <= y <= 9999 {
      FitsCons(IsoLayout[0], IsoLayout[1..], Abs(y), rest);
    } else {
      FitsCons(Slot([if y < 0 then '-' else '+'], 6), IsoLayout[1..], Abs(y), rest);
    }
  }

  lemma RestFits(rest: seq<nat>)
    requires |rest| == 6 && rest[0] <= 12 && rest[1] <= 31
    requires rest[2] < 24 && rest[3] < 60 && rest[4] < 60 && rest[5] < 1000
    ensures Fits(IsoLayout[1..], rest)
  {
    assert Pow10(2) == 100 && Pow10(3) == 1000;
  }

  /** Date.prototype.toISOString on a valid Date: YYYY-MM-DDTHH:mm:ss.sssZ, or ±YYYYYY-... for other years. */
  function IsoText(t: TimeValue): string {
    IsoFits(t);
    Render(LayoutForYear(YearOf(t)), IsoValues(t)) + "Z"
  }

  datatype DateError = RangeError

  /** toISOString: a Date holding NaN throws RangeError ("Invalid time value"). */
  function ToIsoString(d: Option<TimeValue>): Result<string, DateError> {
    if d.None? then Err(RangeError) else Ok(IsoText(d.value))
  }

  /** The instant of validated timestamp fields (month to millisecond), clipped to the representable range. */
  function InstantOf(year: int, rest: seq<nat>): Option<TimeValue>
    requires |rest| == 6
  {
    if ValidDate(year, rest[0], rest[1]) && rest[2] < 24 && rest[3] < 60 && rest[4] < 60 then
      TimeClip(DayFromCivil(year, rest[0], rest[1]) * 86400000
               + rest[2] * 3600000 + rest[3] * 60000 + rest[4] * 1000 + rest[5])
    else None
  }

  /**
   * Date.parse on the canonical ISO text: four-digit or signed six-digit year,
   * every field present, UTC designator "Z". Out-of-range fields, "-000000"
   * and anything else give NaN.
   */
  function ParseIso(s: string): Option<TimeValue> {
    if |s| == 0 || s[|s| - 1] != 'Z' then None else ParseIsoBody(s[..|s| - 1])
  }

  function ParseIsoBody(body: string): Option<TimeValue> {
    if |body| > 0 && (body[0] == '+' || body[0] == '-') then ParseExpanded(body) else ParseFourDigit(body)
  }

  function ParseFourDigit(body: string): Option<TimeValue> {
    match Unrender(IsoLayout, body)
    case None => None
    case Some(vs) => if |vs| != 7 then None else InstantOf(vs[0], vs[1..])
  }

  function ParseExpanded(body: string): Option<TimeValue>
    requires |body| > 0
  {
    var parsed := Unrender(ExpandedLayout(body[0]), body);
    if parsed.None? || |parsed.value| != 7 || (body[0] == '-' && parsed.value[0] == 0) then None
    else InstantOf(SignedYear(body[0], parsed.value[0]), parsed.value[1..])
  }

  function SignedYear(sign: char, digits: nat): int {
    if sign == '-' then 0 - digits as int else digits
  }

  /** The fields of t rebuild t. */
  lemma InstantOfFields(t: TimeValue)
    ensures InstantOf(YearOf(t), RestFields(t)) == Some(t)
  {
    var c := CivilFromDays(t / 86400000);
    var r := RestFields(t);
    var tf := TimeFields(t % 86400000);
    assert r[0] == c.month && r[1] == c.day && r[2..] == tf;
    assert DayOf(c) == t / 86400000;
    DayOfMakeDay(c);
  }

  /** Rendered four-digit-year fields read back as the instant they denote. */
  lemma ParseFourDigitYear(vs: seq<nat>)
    requires Fits(IsoLayout, vs)
    ensures |vs| == 7 && ParseIso(Render(IsoLayout, vs) + "Z") == InstantOf(vs[0], vs[1..])
  {
    var r := Render(IsoLayout, vs);
    UnrenderRender(IsoLayout, vs);
    FitsTail(IsoLayout, vs);
    FourDigitBody(r, Fixed(vs[0], 4), vs);
  }

  lemma FourDigitBody(r: string, f: string, vs: seq<nat>)
    requires |vs| == 7 && Unrender(IsoLayout, r) == Some(vs)
    requires |f| == 4 && AllDigits(f) && r[0] == f[0]
    ensures ParseIso(r + "Z") == InstantOf(vs[0], vs[1..])
  {
    BodyOfText(r);
    assert AllDigits(f) ==> IsDigit(f[0]);
  }

  /** ParseIso drops the trailing "Z" and reads the rest. */
  lemma BodyOfText(r: string)
    ensures ParseIso(r + "Z") == ParseIsoBody(r)
  {
    var s := r + "Z";
    assert s[..|s| - 1] == r;
  }

  lemma ParseExpandedOf(body: string, vs: seq<nat>)
    requires |body| > 0 && Unrender(ExpandedLayout(body[0]), body) == Some(vs) && |vs| == 7
    requires body[0] == '-' ==> vs[0] > 0
    ensures ParseExpanded(body) == InstantOf(SignedYear(body[0], vs[0]), vs[1..])
  {
  }

  /** Rendered signed six-digit-year fields read back as the instant they denote. */
  lemma ParseExpandedYear(sign: char, vs: seq<nat>)
    requires sign == '-' || sign == '+'
    requires Fits(ExpandedLayout(sign), vs) && (sign == '-' ==> vs[0] > 0)
    ensures |vs| == 7
    ensures ParseIso(Render(ExpandedLayout(sign), vs) + "Z") == InstantOf(SignedYear(sign, vs[0]), vs[1..])
  {
    var r := Render(ExpandedLayout(sign), vs);
    UnrenderRender(ExpandedLayout(sign), vs);
    RenderedSign(sign, vs, r);
    ExpandedBody(r, sign, vs);
  }

  lemma RenderedSign(sign: char, vs: seq<nat>, r: string)
    requires Fits(ExpandedLayout(sign), vs) && r == Render(ExpandedLayout(sign), vs)
    ensures |r| > 0 && r[0] == sign
  {
    RenderCons(ExpandedLayout(sign), vs);
    assert ExpandedLayout(sign)[0].sep == [sign];
  }

  lemma ExpandedBody(r: string, sign: char, vs: seq<nat>)
    requires sign == '-' || sign == '+'
    requires |r| > 0 && r[0] == sign && Unrender(ExpandedLayout(sign), r) == Some(vs) && |vs| == 7
    requires sign == '-' ==> vs[0] > 0
    ensures ParseIso(r + "Z") == InstantOf(SignedYear(sign, vs[0]), vs[1..])
  {
    BodyOfText(r);
    ParseExpandedOf(r, vs);
  }

  /** Reading the ISO text of a time value back gives the time value. */
  /** toISOString fails exactly on NaN, and the text it writes reads back as the Date. */
  lemma ToIsoStringReads(d: Option<TimeValue>)
    ensures ToIsoString(d).Err? <==> d.None?
    ensures ToIsoString(d).Ok? ==> ParseIso(ToIsoString(d).value) == d
  {
    if d.Some? {
      ParseIsoText(d.value);
    }
  }

  lemma ParseIsoText(t: TimeValue)
    ensures ParseIso(IsoText(t)) == Some(t)
  {
    var y, vs := YearOf(t), IsoValues(t);
    IsoFits(t);
    InstantOfFields(t);
    assert vs[1..] == RestFields(t);
    if 0 <= y <= 9999 {
      ParseFourDigitYear(vs);
    } else {
      var sign := if y < 0 then '-' else '+';
      assert SignedYear(sign, vs[0]) == y;
      ParseExpandedYear(sign, vs);
    }
  }

  /** Within one day, a later time of day has lexicographically larger fields. */
  lemma TimeFieldsOrder(ms1: int, ms2: int)
    requires 0 <= ms1 < ms2 < 86400000
    ensures LexLess(TimeFields(ms1), TimeFields(ms2))
  {
    var a, b := TimeFields(ms1), TimeFields(ms2);
    var a1, b1 := a[1..], b[1..];
    var a2, b2 := a1[1..], b1[1..];
    var a3, b3 := a2[1..], b2[1..];
    assert a3 == [a[3]] && b3 == [b[3]];
    if a[0] == b[0] && a[1] == b[1] && a[2] == b[2] {
      assert a[3] < b[3];
      assert LexLess(a3, b3);
    }
    assert a2[0] == a[2] && b2[0] == b[2];
    assert a1[0] == a[1] && b1[0] == b[1];
  }

  /** The calendar order of dates is the lexicographic order of their fields. */
  lemma DateFieldsOrder(c1: CivilDate, c2: CivilDate)
    requires Before(c1, c2) && c1.year >= 0 && c2.year >= 0
    ensures LexLess([Abs(c1.year), c1.month, c1.day], [Abs(c2.year), c2.month, c2.day])
  {
    var a: seq<int>, b: seq<int> := [Abs(c1.year), c1.month, c1.day], [Abs(c2.year), c2.month, c2.day];
    assert a[1..] == [c1.month, c1.day] && b[1..] == [c2.month, c2.day];
    assert a[1..][1..] == [c1.day] && b[1..][1..] == [c2.day];
  }

  /** The ISO fields of t: the civil date followed by the time of day. */
  lemma IsoValuesSplit(t: TimeValue)
    ensures var c := CivilFromDays(t / 86400000);
      IsoValues(t) == [Abs(c.year), c.month, c.day] + TimeFields(t % 86400000)
  {
  }

  /** For years from 0 on, a later instant has lexicographically larger ISO fields. */
  lemma IsoValuesOrder(t1: TimeValue, t2: TimeValue)
    requires t1 < t2 && YearOf(t1) >= 0 && YearOf(t2) >= 0
    ensures LexLess(IsoValues(t1), IsoValues(t2))
  {
    var z1, z2 := t1 / 86400000, t2 / 86400000;
    var c1, c2 := CivilFromDays(z1), CivilFromDays(z2);
    var d1: seq<int>, d2: seq<int> := [Abs(c1.year), c1.month, c1.day], [Abs(c2.year), c2.month, c2.day];
    var f1, f2 := TimeFields(t1 % 86400000), TimeFields(t2 % 86400000);
    assert LexLess(d1, d2) || (d1 == d2 && LexLess(f1, f2)) by {
      if z1 < z2 {
        CivilFromDaysMonotone(z1, z2);
        DateFieldsOrder(c1, c2);
      } else {
        SameDayOrder(t1, t2);
        TimeFieldsOrder(t1 % 86400000, t2 % 86400000);
      }
    }
    LexLessConcat(d1, f1, d2, f2);
    IsoValuesSplit(t1);
    IsoValuesSplit(t2);
  }

  lemma SameDayOrder(t1: int, t2: int)
    requires t1 < t2 && !(t1 / 86400000 < t2 / 86400000)
    ensures t1 / 86400000 == t2 / 86400000 && t1 % 86400000 < t2 % 86400000
  {
  }

  /** Full ISO texts of years 0..9999 compare as their instants do. */
  lemma IsoTextOrderStrict(t1: TimeValue, t2: TimeValue)
    requires t1 < t2 && 0 <= YearOf(t1) <= 9999 && 0 <= YearOf(t2) <= 9999
    ensures TextLess(IsoText(t1), IsoText(t2))
  {
    IsoFits(t1);
    IsoFits(t2);
    IsoValuesOrder(t1, t2);
    var r1, r2 := Render(IsoLayout, IsoValues(t1)), Render(IsoLayout, IsoValues(t2));
    RenderOrder(IsoLayout, IsoValues(t1), IsoValues(t2));
    RenderLength(IsoLayout, IsoValues(t1));
    RenderLength(IsoLayout, IsoValues(t2));
    TextLessConcat(r1, "Z", r2, "Z");
  }

  /**
   * For instants in the years 0..9999, text order of the toISOString output
   * (SQLite's byte-wise comparison) is exactly instant order.
   */
  lemma IsoTextOrder(t1: TimeValue, t2: TimeValue)
    requires 0 <= YearOf(t1) <= 9999 && 0 <= YearOf(t2) <= 9999
    ensures t1 < t2 <==> TextLess(IsoText(t1), IsoText(t2))
    ensures t1 == t2 <==> IsoText(t1) == IsoText(t2)
  {
    TextLessIrreflexive(IsoText(t1));
    TextLessTrichotomy(IsoText(t1), IsoText(t2));
    if t1 < t2 {
      IsoTextOrderStrict(t1, t2);
    } else if t2 < t1 {
      IsoTextOrderStrict(t2, t1);
    }
  }

  /** The ISO fields written out: four year digits, then two digits per field and three for milliseconds. */
  lemma RenderIsoLayout(vs: seq<nat>)
    requires Fits(IsoLayout, vs)
    ensures |vs| == 7
    ensures Render(IsoLayout, vs)
         == Fixed(vs[0], 4) + "-" + Fixed(vs[1], 2) + "-" + Fixed(vs[2], 2) + "T" + Fixed(vs[3], 2)
            + ":" + Fixed(vs[4], 2) + ":" + Fixed(vs[5], 2) + "." + Fixed(vs[6], 3)
  {
    RenderSuffix(vs, 0);
    assert IsoLayout[0..] == IsoLayout && vs[0..] == vs;
    IsoConcat(Fixed(vs[0], 4), Fixed(vs[1], 2), Fixed(vs[2], 2), Fixed(vs[3], 2), Fixed(vs[4], 2), Fixed(vs[5], 2), Fixed(vs[6], 3),
      IsoSuffix(vs, 0), IsoSuffix(vs, 1), IsoSuffix(vs, 2), IsoSuffix(vs, 3),
      IsoSuffix(vs, 4), IsoSuffix(vs, 5), IsoSuffix(vs, 6));
  }

  /** The ISO fields from the k-th on, rendered field by field. */
  function IsoSuffix(vs: seq<nat>, k: nat): string
    requires |vs| == 7 && k <= 7
    decreases 7 - k
  {
    if k == 7 then "" else IsoLayout[k].sep + Fixed(vs[k], IsoLayout[k].width) + IsoSuffix(vs, k + 1)
  }

  lemma {:induction false} RenderSuffix(vs: seq<nat>, k: nat)
    requires Fits(IsoLayout, vs) && k <= 7
    ensures |vs| == 7 && Render(IsoLayout[k..], vs[k..]) == IsoSuffix(vs, k)
    decreases 7 - k
  {
    if k < 7 {
      RenderSuffix(vs, k + 1);
      FitsDrop(IsoLayout, vs, k);
      RenderCons(IsoLayout[k..], vs[k..]);
      assert IsoLayout[k..][1..] == IsoLayout[k + 1..] && vs[k..][1..] == vs[k + 1..];
    }
  }

  /** Regrouping the rendered fields of an ISO timestamp into one left-to-right text. */
  lemma IsoConcat(f0: string, f1: string, f2: string, f3: string, f4: string, f5: string, f6: string,
                  r0: string, r1: string, r2: string, r3: string, r4: string, r5: string, r6: string)
    requires r6 == "." + f6 + "" && r5 == ":" + f5 + r6 && r4 == ":" + f4 + r5 && r3 == "T" + f3 + r4
    requires r2 == "-" + f2 + r3 && r1 == "-" + f1 + r2 && r0 == "" + f0 + r1
    ensures r0 == f0 + "-" + f1 + "-" + f2 + "T" + f3 + ":" + f4 + ":" + f5 + "." + f6
  {
  }

  /** Day numbers of the years 0..9999 keep their instants well inside the time value range. */
  lemma DayOfRange(c: CivilDate)
    requires IsValid(c) && 0 <= c.year <= 9999
    ensures -800000 < DayOf(c) < 3000000
  {
    DayOfBeforeNextYear(c);
    MakeDayInYear(c.year, c.month - 1, c.day);
    DayFromYearMonotone(c.year + 1, 10000);
    DayFromYearMonotone(0, c.year);
    DayFromYearBounds(10000);
    DayFromYearBounds(0);
  }

  /** Splitting an instant into its day number and its time of day. */
  lemma DayAndTime(z: int, ms: int)
    requires 0 <= ms < 86400000
    ensures (z * 86400000 + ms) / 86400000 == z && (z * 86400000 + ms) % 86400000 == ms
  {
  }

  lemma TimeFieldsAtHour(h: nat)
    requires h < 24
    ensures TimeFields(h * 3600000) == [h, 0, 0, 0]
  {
  }

  /** The ISO fields of an instant at a whole hour of the day numbered z. */
  lemma IsoValuesOf(t: TimeValue, z: int, h: nat)
    requires t / 86400000 == z && t % 86400000 == h * 3600000 && h < 24 && 0 <= CivilFromDays(z).year
    ensures YearOf(t) == CivilFromDays(z).year
    ensures IsoValues(t) == [CivilFromDays(z).year, CivilFromDays(z).month, CivilFromDays(z).day, h, 0, 0, 0]
  {
    TimeFieldsAtHour(h);
    IsoValuesSplit(t);
  }

  /** From year 0 to 9999 toISOString uses the four-digit layout. */
  lemma IsoTextFourDigit(t: TimeValue)
    requires 0 <= YearOf(t) <= 9999
    ensures Fits(IsoLayout, IsoValues(t)) && IsoText(t) == Render(IsoLayout, IsoValues(t)) + "Z"
  {
    IsoFits(t);
  }

  /** The four-digit layout of a whole hour. */
  lemma RenderAtHour(y: nat, m: nat, d: nat, h: nat)
    requires Fits(IsoLayout, [y, m, d, h, 0, 0, 0])
    ensures Render(IsoLayout, [y, m, d, h, 0, 0, 0]) + "Z"
         == Fixed(y, 4) + "-" + Fixed(m, 2) + "-" + Fixed(d, 2) + "T" + Fixed(h, 2) + ":00:00.000Z"
  {
    var head := Fixed(y, 4) + "-" + Fixed(m, 2) + "-" + Fixed(d, 2) + "T" + Fixed(h, 2);
    RenderIsoLayout([y, m, d, h, 0, 0, 0]);
    FixedZero();
    MidnightSuffix(head, Fixed(0, 2), Fixed(0, 3));
  }

  /** The ISO text of an instant whose fields are a date of the years 0..9999 and a whole hour. */
  lemma IsoTextOfValues(t: TimeValue, y: nat, m: nat, d: nat, h: nat)
    requires YearOf(t) == y <= 9999 && IsoValues(t) == [y, m, d, h, 0, 0, 0]
    ensures IsoText(t) == Fixed(y, 4) + "-" + Fixed(m, 2) + "-" + Fixed(d, 2) + "T" + Fixed(h, 2) + ":00:00.000Z"
  {
    IsoTextFourDigit(t);
    RenderAtHour(y, m, d, h);
  }

  /** toISOString of h o'clock UTC on the day numbered z, a day of the years 0..9999. */
  lemma IsoTextAtDayHour(z: int, h: nat, c: CivilDate)
    requires CivilFromDays(z) == c && 0 <= c.year <= 9999 && -800000 < z < 3000000 && h < 24
    ensures -MaxTimeValue <= z * 86400000 + h * 3600000 <= MaxTimeValue
    ensures YearOf(z * 86400000 + h * 3600000) == c.year
    ensures IsoText(z * 86400000 + h * 3600000)
         == Fixed(c.year, 4) + "-" + Fixed(c.month, 2) + "-" + Fixed(c.day, 2) + "T" + Fixed(h, 2) + ":00:00.000Z"
  {
    DayAndTime(z, h * 3600000);
    IsoTextOfDay(z * 86400000 + h * 3600000, z, h, c);
  }

  lemma IsoTextOfDay(t: TimeValue, z: int, h: nat, c: CivilDate)
    requires t / 86400000 == z && t % 86400000 == h * 3600000 && h < 24
    requires CivilFromDays(z) == c && 0 <= c.year <= 9999
    ensures YearOf(t) == c.year
    ensures IsoText(t) == Fixed(c.year, 4) + "-" + Fixed(c.month, 2) + "-" + Fixed(c.day, 2) + "T" + Fixed(h, 2) + ":00:00.000Z"
  {
    IsoValuesOf(t, z, h);
    IsoTextOfValues(t, c.year, c.month, c.day, h);
  }

  lemma MidnightSuffix(head: string, z2: string, z3: string)
    requires z2 == "00" && z3 == "000"
    ensures head + ":" + z2 + ":" + z2 + "." + z3 + "Z" == head + ":00:00.000Z"
  {
  }

  /** The instant t, h o'clock UTC on the day numbered z, is representable and lies in that day's year. */
  lemma YearAtDayHour(z: int, h: nat, c: CivilDate, t: int)
    requires CivilFromDays(z) == c && 0 <= c.year && -800000 < z < 3000000 && h < 24
    requires t == z * 86400000 + h * 3600000
    ensures -MaxTimeValue <= t <= MaxTimeValue && YearOf(t) == c.year
  {
    DayAndTime(z, h * 3600000);
    IsoValuesOf(t, z, h);
  }
}
