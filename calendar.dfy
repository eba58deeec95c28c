/**
 * Proleptic Gregorian calendar arithmetic in the form ECMAScript uses it
 * (DayFromYear, MakeDay, Day, YearFromTime, MonthFromTime, DateFromTime).
 * Day numbers count from 1970-01-01 (day 0); months are 1..12 in civil
 * dates and 0-based where ECMAScript passes them (MakeDay).
 * All divisions below have a positive constant divisor, where Dafny's
 * Euclidean division coincides with ECMAScript's floor.
 */
module Calendar {

  predicate IsLeapYear(y: int) {
    (y % 4 == 0 && y % 100 != 0) || y % 400 == 0
  }

  function DaysInYear(y: int): int {
    if IsLeapYear(y) then 366 else 365
  }

  /** Number of days in month m (1..12) of year y. */
  function DaysInMonth(y: int, m: int): int
    requires 1 <= m <= 12
  {
    if m == 2 then (if IsLeapYear(y) then 29 else 28)
    else if m == 4 || m == 6 || m == 9 || m == 11 then 30
    else 31
  }

  /** Days in the year before the first of 0-based month mn (0..12). */
  function CumDays(mn: int, leap: bool): int
    requires 0 <= mn <= 12
  {
    // 0, 31, 59, 90, 120, 151, 181, 212, 243, 273, 304, 334, 365: from March on,
    // months alternate 31 and 30 days in the pattern 153 days per five months
    if mn < 2 then 31 * mn
    else (153 * (mn - 2) + 2) / 5 + (if leap then 60 else 59)
  }

  /** ECMAScript DayFromYear: the day number of 1 January of year y. */
  function DayFromYear(y: int): int {
    365 * (y - 1970) + (y - 1969) / 4 - (y - 1901) / 100 + (y - 1601) / 400
  }

  predicate ValidDate(y: int, m: int, d: int) {
    1 <= m <= 12 && 1 <= d <= DaysInMonth(y, m)
  }

  /**
   * ECMAScript MakeDay for integer arguments: the month is normalised into
   * the year (ym = year + floor(month / 12), mn = month modulo 12) and the
   * date is added to the first of that month, so an out-of-range month or
   * date rolls over instead of failing.
   */
  function MakeDay(year: int, month: int, date: int): int {
    var ym := year + month / 12;
    var mn := month % 12;
    DayFromYear(ym) + CumDays(mn, IsLeapYear(ym)) + date - 1
  }

  /** Within a year MakeDay needs no normalisation. */
  lemma MakeDayInYear(y: int, mn: int, d: int)
    requires 0 <= mn < 12
    ensures MakeDay(y, mn, d) == DayFromYear(y) + CumDays(mn, IsLeapYear(y)) + d - 1
  {
    assert mn / 12 == 0 && mn % 12 == mn;
  }

  /** Day number of the civil date y-m-d. */
  function DayFromCivil(y: int, m: int, d: int): int
    requires 1 <= m <= 12
  {
    MakeDay(y, m - 1, d)
  }

  lemma QuadrennialStep(y: int)
    ensures (y - 1968) / 4 - (y - 1969) / 4 == if y % 4 == 0 then 1 else 0
  {
  }

  lemma CenturyStep(y: int)
    ensures (y - 1900) / 100 - (y - 1901) / 100 == if y % 100 == 0 then 1 else 0
  {
  }

  lemma QuadricentennialStep(y: int)
    ensures (y - 1600) / 400 - (y - 1601) / 400 == if y % 400 == 0 then 1 else 0
  {
  }

  /** A multiple of 400 is one of 100, and a multiple of 100 is one of 4. */
  lemma DivisorChain(y: int)
    ensures y % 400 == 0 ==> y % 100 == 0
    ensures y % 100 == 0 ==> y % 4 == 0
  {
    var k, j := y / 400, y / 100;
    if y % 400 == 0 {
      assert y == 400 * k;
      assert j == 4 * k;
    }
    if y % 100 == 0 {
      assert y == 100 * j;
      assert y / 4 == 25 * j;
    }
  }

  /** Consecutive years are DaysInYear apart. */
  lemma YearLength(y: int)
    ensures DayFromYear(y + 1) - DayFromYear(y) == DaysInYear(y)
  {
    QuadrennialStep(y);
    CenturyStep(y);
    QuadricentennialStep(y);
    DivisorChain(y);
  }

  /** DayFromYear stays within a small band around 365.2425 days per year. */
  lemma DayFromYearBounds(y: int)
    ensures 146097 * (y - 1970) - 506 <= 400 * DayFromYear(y) <= 146097 * (y - 1970) + 589
  {
  }

  lemma DayFromYearMonotone(y1: int, y2: int)
    requires y1 <= y2
    ensures DayFromYear(y1) <= DayFromYear(y2)
  {
    DayFromYearBounds(y1);
    DayFromYearBounds(y2);
  }

  /**
   * ECMAScript YearFromTime, on day numbers: the year whose days contain z
   * (the largest y whose first day is at or before z).
   */
  function YearFromDay(z: int): (y: int)
    ensures DayFromYear(y) <= z < DayFromYear(y + 1)
  {
    YearOfDayExists(z);
    OneYearContains(z);
    var y :| DayFromYear(y) <= z < DayFromYear(y + 1); y
  }

  lemma OneYearContains(z: int)
    ensures forall a, b :: DayFromYear(a) <= z < DayFromYear(a + 1) && DayFromYear(b) <= z < DayFromYear(b + 1) ==> a == b
  {
    forall a, b | DayFromYear(a) <= z < DayFromYear(a + 1) && DayFromYear(b) <= z < DayFromYear(b + 1)
      ensures a == b
    {
      if a < b {
        DayFromYearMonotone(a + 1, b);
      } else if b < a {
        DayFromYearMonotone(b + 1, a);
      }
    }
  }

  /** The estimate from the mean year length is at most one year off. */
  lemma YearOfDayExists(z: int)
    ensures exists y :: DayFromYear(y) <= z < DayFromYear(y + 1)
  {
    var y0 := 1970 + (400 * z) / 146097;
    DayFromYearBounds(y0 - 1);
    DayFromYearBounds(y0 + 2);
    var y := if DayFromYear(y0) > z then y0 - 1 else if DayFromYear(y0 + 1) <= z then y0 + 1 else y0;
    assert DayFromYear(y) <= z < DayFromYear(y + 1);
  }

  /** Only one year contains a given day. */
  lemma YearFromDayUnique(z: int, y: int)
    requires DayFromYear(y) <= z < DayFromYear(y + 1)
    ensures YearFromDay(z) == y
  {
    var y' := YearFromDay(z);
    if y' < y {
      DayFromYearMonotone(y' + 1, y);
    } else if y' > y {
      DayFromYearMonotone(y + 1, y');
    }
  }

  lemma MonthLength(y: int, m: int)
    requires 1 <= m <= 12
    ensures CumDays(m, IsLeapYear(y)) - CumDays(m - 1, IsLeapYear(y)) == DaysInMonth(y, m)
  {
  }

  lemma CumDaysIncreasing(a: int, b: int, leap: bool)
    requires 0 <= a < b <= 12
    ensures CumDays(a, leap) < CumDays(b, leap)
  {
  }

  /** ECMAScript MonthFromTime, on the day within the year: the 0-based month whose days contain doy. */
  function MonthFromDayInYear(doy: int, leap: bool): (mn: int)
    requires 0 <= doy < CumDays(12, leap)
    ensures 0 <= mn < 12 && CumDays(mn, leap) <= doy < CumDays(mn + 1, leap)
  {
    MonthOfDayExists(doy, leap, 11);
    var mn :| 0 <= mn < 12 && CumDays(mn, leap) <= doy < CumDays(mn + 1, leap); mn
  }

  /** Some month up to k contains doy, when doy falls before the end of month k. */
  lemma {:induction false} MonthOfDayExists(doy: int, leap: bool, k: int)
    requires 0 <= k < 12 && 0 <= doy < CumDays(k + 1, leap)
    ensures exists mn :: 0 <= mn <= k && CumDays(mn, leap) <= doy < CumDays(mn + 1, leap)
    decreases k
  {
    if CumDays(k, leap) <= doy {
      assert 0 <= k <= k && CumDays(k, leap) <= doy < CumDays(k + 1, leap);
    } else {
      MonthOfDayExists(doy, leap, k - 1);
    }
  }

  lemma MonthFromDayInYearUnique(doy: int, leap: bool, mn: int)
    requires 0 <= mn < 12 && CumDays(mn, leap) <= doy < CumDays(mn + 1, leap)
    ensures MonthFromDayInYear(doy, leap) == mn
  {
    var mn' := MonthFromDayInYear(doy, leap);
    if mn' < mn {
      CumDaysIncreasing(mn' + 1, mn, leap);
    } else if mn' > mn {
      CumDaysIncreasing(mn + 1, mn', leap);
    }
  }

  datatype CivilDate = CivilDate(year: int, month: int, day: int)

  predicate IsValid(c: CivilDate) {
    ValidDate(c.year, c.month, c.day)
  }

  /** Day number of a valid date; MakeDay(year, month - 1, day) by DayOfMakeDay. */
  function DayOf(c: CivilDate): int
    requires IsValid(c)
  {
    DayFromYear(c.year) + CumDays(c.month - 1, IsLeapYear(c.year)) + c.day - 1
  }

  lemma DayOfMakeDay(c: CivilDate)
    requires IsValid(c)
    ensures DayFromCivil(c.year, c.month, c.day) == DayOf(c)
  {
    MakeDayInYear(c.year, c.month - 1, c.day);
  }

  /** The civil date of day number z (YearFromTime, MonthFromTime, DateFromTime). */
  function CivilFromDays(z: int): (c: CivilDate)
    ensures IsValid(c)
    ensures DayOf(c) == z
  {
    var y := YearFromDay(z);
    DayWithinYear(z, y);
    DateInYear(y, z - DayFromYear(y))
  }

  lemma DayWithinYear(z: int, y: int)
    requires DayFromYear(y) <= z < DayFromYear(y + 1)
    ensures 0 <= z - DayFromYear(y) < CumDays(12, IsLeapYear(y))
  {
    YearLength(y);
  }

  /** The date of the 0-based day doy of year y (MonthFromTime, DateFromTime). */
  function DateInYear(y: int, doy: int): (c: CivilDate)
    requires 0 <= doy < CumDays(12, IsLeapYear(y))
    ensures IsValid(c) && c.year == y && DayOf(c) == DayFromYear(y) + doy
  {
    var mn := MonthFromDayInYear(doy, IsLeapYear(y));
    MonthLength(y, mn + 1);
    CivilDate(y, mn + 1, doy - CumDays(mn, IsLeapYear(y)) + 1)
  }

  /** Where the day number of a valid date falls: inside its year, inside its month. */
  lemma DayOfInYear(c: CivilDate)
    requires IsValid(c)
    ensures DayFromYear(c.year) <= DayOf(c) < DayFromYear(c.year + 1)
    ensures CumDays(c.month - 1, IsLeapYear(c.year)) <= DayOf(c) - DayFromYear(c.year) < CumDays(c.month, IsLeapYear(c.year))
  {
    MonthLength(c.year, c.month);
    DayOfBeforeNextYear(c);
  }

  /** A valid date is the date of its own day within its year, doy. */
  lemma DateInYearOf(c: CivilDate, doy: int)
    requires IsValid(c) && doy == DayOf(c) - DayFromYear(c.year)
    ensures 0 <= doy < CumDays(12, IsLeapYear(c.year))
    ensures DateInYear(c.year, doy) == c
  {
    var leap := IsLeapYear(c.year);
    DayOfInYear(c);
    DayWithinYear(DayOf(c), c.year);
    MonthFromDayInYearUnique(doy, leap, c.month - 1);
  }

  /** Every valid civil date is the date of its own day number. */
  lemma CivilFromDaysOf(c: CivilDate)
    requires IsValid(c)
    ensures CivilFromDays(DayOf(c)) == c
  {
    var z := DayOf(c);
    CivilOfDay(c, z, z - DayFromYear(c.year));
  }

  lemma CivilOfDay(c: CivilDate, z: int, doy: int)
    requires IsValid(c) && z == DayOf(c) && doy == z - DayFromYear(c.year)
    ensures CivilFromDays(z) == c
  {
    DayOfInYear(c);
    YearFromDayUnique(z, c.year);
    CivilFromDaysInYear(z, c.year, doy);
    DateInYearOf(c, doy);
  }

  /** CivilFromDays once the year is known: the date of the day doy of that year. */
  lemma CivilFromDaysInYear(z: int, y: int, doy: int)
    requires YearFromDay(z) == y && doy == z - DayFromYear(y)
    ensures 0 <= doy < CumDays(12, IsLeapYear(y))
    ensures CivilFromDays(z) == DateInYear(y, doy)
  {
    DayWithinYear(z, y);
  }

  /** Calendar order of civil dates: by year, then month, then day. */
  predicate Before(a: CivilDate, b: CivilDate) {
    a.year < b.year
    || (a.year == b.year && (a.month < b.month || (a.month == b.month && a.day < b.day)))
  }

  /** The last day of a year comes before the next year's first day. */
  lemma DayOfBeforeNextYear(c: CivilDate)
    requires IsValid(c)
    ensures DayOf(c) < DayFromYear(c.year + 1)
  {
    MonthLength(c.year, c.month);
    YearLength(c.year);
    if c.month < 12 {
      CumDaysIncreasing(c.month, 12, IsLeapYear(c.year));
    }
  }

  /** Later dates have larger day numbers. */
  lemma DayOfMonotone(a: CivilDate, b: CivilDate)
    requires IsValid(a) && IsValid(b) && Before(a, b)
    ensures DayOf(a) < DayOf(b)
  {
    if a.year < b.year {
      DayOfBeforeNextYear(a);
      DayFromYearMonotone(a.year + 1, b.year);
      DayOfInYear(b);
    } else {
      DayOfMonotoneInYear(a, b);
    }
  }

  lemma DayOfMonotoneInYear(a: CivilDate, b: CivilDate)
    requires IsValid(a) && IsValid(b) && a.year == b.year && Before(a, b)
    ensures DayOf(a) < DayOf(b)
  {
    if a.month < b.month {
      MonthLength(a.year, a.month);
      if a.month < b.month - 1 {
        CumDaysIncreasing(a.month, b.month - 1, IsLeapYear(a.year));
      }
    }
  }

  /** Larger day numbers have later civil dates. */
  lemma CivilFromDaysMonotone(z1: int, z2: int)
    requires z1 < z2
    ensures Before(CivilFromDays(z1), CivilFromDays(z2))
  {
    var a, b := CivilFromDays(z1), CivilFromDays(z2);
    if !Before(a, b) && a != b {
      DayOfMonotone(b, a);
    }
  }

  /** The civil date after c. */
  function NextDay(c: CivilDate): (n: CivilDate)
    requires IsValid(c)
    ensures IsValid(n) && DayOf(n) == DayOf(c) + 1
  {
    if c.day < DaysInMonth(c.year, c.month) then
      NextInMonth(c);
      CivilDate(c.year, c.month, c.day + 1)
    else if c.month < 12 then
      NextMonth(c);
      CivilDate(c.year, c.month + 1, 1)
    else
      NextYear(c);
      CivilDate(c.year + 1, 1, 1)
  }

  lemma NextInMonth(c: CivilDate)
    requires IsValid(c) && c.day < DaysInMonth(c.year, c.month)
    ensures IsValid(CivilDate(c.year, c.month, c.day + 1))
    ensures DayOf(CivilDate(c.year, c.month, c.day + 1)) == DayOf(c) + 1
  {
  }

  lemma NextMonth(c: CivilDate)
    requires IsValid(c) && c.day == DaysInMonth(c.year, c.month) && c.month < 12
    ensures IsValid(CivilDate(c.year, c.month + 1, 1))
    ensures DayOf(CivilDate(c.year, c.month + 1, 1)) == DayOf(c) + 1
  {
    MonthLength(c.year, c.month);
  }

  lemma NextYear(c: CivilDate)
    requires IsValid(c) && c.day == DaysInMonth(c.year, c.month) && c.month == 12
    ensures IsValid(CivilDate(c.year + 1, 1, 1))
    ensures DayOf(CivilDate(c.year + 1, 1, 1)) == DayOf(c) + 1
  {
    MonthLength(c.year, 12);
    YearLength(c.year);
  }

  /** The next day is in the same year or the next one. */
  lemma NextDayYear(c: CivilDate)
    requires IsValid(c)
    ensures c.year <= NextDay(c).year <= c.year + 1
  {
  }
}
