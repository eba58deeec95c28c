/**
 * formatTimeAgo: the age of a sighting in whole minutes as the client shows
 * it, "now", "{m} min ago", "{h}h ago" or "{d}d ago". The texts are read back
 * by ReadTimeAgo, so that what a text shows can be stated about the minutes.
 */
module TimeFormat {
  import opened Wrappers
  import opened Decimal

  /** The four forms of the text, with the number each shows. */
  datatype TimeAgo = Now | MinutesAgo(n: nat) | HoursAgo(n: nat) | DaysAgo(n: nat)

  /** formatTimeAgo, with what the text shows stated in terms of the minutes. */
  function FormatTimeAgo(minutes: int): (s: string)
    ensures ReadTimeAgo(s).Some?
    ensures ReadTimeAgo(s).value == Now <==> minutes < 5
    ensures ReadTimeAgo(s).value.MinutesAgo? <==> 5 <= minutes < 60
    ensures ReadTimeAgo(s).value.HoursAgo? <==> 60 <= minutes < 1440
    ensures ReadTimeAgo(s).value.DaysAgo? <==> 1440 <= minutes
    ensures ReadTimeAgo(s).value.MinutesAgo? ==> ReadTimeAgo(s).value.n == minutes
    ensures ReadTimeAgo(s).value.HoursAgo? ==>
      var h := ReadTimeAgo(s).value.n; 1 <= h <= 23 && h * 60 <= minutes < (h + 1) * 60
    ensures ReadTimeAgo(s).value.DaysAgo? ==>
      var d := ReadTimeAgo(s).value.n; 1 <= d && d * 1440 <= minutes < (d + 1) * 1440
  {
    if minutes < 5 then
      ReadNow();
      "now"
    else if minutes < 60 then
      ReadCount(minutes, " min ago");
      NatToString(minutes) + " min ago"
    else if minutes < 1440 then
      ReadCount(minutes / 60, "h ago");
      NatToString(minutes / 60) + "h ago"
    else
      ReadCount(minutes / 1440, "d ago");
      NatToString(minutes / 1440) + "d ago"
  }

  /**
   * The number a text of the form "{n}{suffix}" shows, if the part before the suffix is a
   * number as String() writes it (no leading zero).
   */
  function CountBefore(s: string, k: nat): Option<nat>
    requires k <= |s|
  {
    var p := s[..|s| - k];
    if Canonical(p) then Some(DigitsValue(p)) else None
  }

  predicate EndsWith(s: string, suffix: string) {
    |suffix| <= |s| && s[|s| - |suffix|..] == suffix
  }

  /** What a formatTimeAgo text says; None for any other text. */
  function ReadTimeAgo(s: string): Option<TimeAgo> {
    if s == "now" then Some(Now)
    else if EndsWith(s, " min ago") then
      match CountBefore(s, 8) case None => None case Some(n) => Some(MinutesAgo(n))
    else if EndsWith(s, "h ago") then
      match CountBefore(s, 5) case None => None case Some(n) => Some(HoursAgo(n))
    else if EndsWith(s, "d ago") then
      match CountBefore(s, 5) case None => None case Some(n) => Some(DaysAgo(n))
    else None
  }

  lemma ReadNow()
    ensures ReadTimeAgo("now") == Some(Now)
  {
  }

  /** A number followed by one of the three suffixes reads back as that number in that form. */
  lemma ReadCount(n: nat, suffix: string)
    requires suffix == " min ago" || suffix == "h ago" || suffix == "d ago"
    ensures ReadTimeAgo(NatToString(n) + suffix)
         == Some(if suffix == " min ago" then MinutesAgo(n) else if suffix == "h ago" then HoursAgo(n) else DaysAgo(n))
  {
    ReadDigits(NatToString(n), suffix, n);
  }

  lemma ReadDigits(d: string, suffix: string, n: nat)
    requires suffix == " min ago" || suffix == "h ago" || suffix == "d ago"
    requires Canonical(d) && DigitsValue(d) == n
    ensures ReadTimeAgo(d + suffix)
         == Some(if suffix == " min ago" then MinutesAgo(n) else if suffix == "h ago" then HoursAgo(n) else DaysAgo(n))
  {
    var s := d + suffix;
    assert s[|s| - |suffix|..] == suffix && s[..|s| - |suffix|] == d;
    assert s[|s| - 1] == 'o';
    if suffix != " min ago" {
      assert s[|s| - 5] == suffix[0];
    }
  }

  /** The text of each form, as formatTimeAgo writes it. */
  function ShowTimeAgo(t: TimeAgo): string {
    match t
    case Now => "now"
    case MinutesAgo(n) => NatToString(n) + " min ago"
    case HoursAgo(n) => NatToString(n) + "h ago"
    case DaysAgo(n) => NatToString(n) + "d ago"
  }

  /** ReadTimeAgo and ShowTimeAgo are inverse: each form reads back, and a text that reads is the one shown. */
  lemma ReadShowInverse(t: TimeAgo, s: string)
    ensures ReadTimeAgo(ShowTimeAgo(t)) == Some(t)
    ensures ReadTimeAgo(s).Some? ==> s == ShowTimeAgo(ReadTimeAgo(s).value)
  {
    match t {
      case Now => ReadNow();
      case MinutesAgo(n) => ReadCount(n, " min ago");
      case HoursAgo(n) => ReadCount(n, "h ago");
      case DaysAgo(n) => ReadCount(n, "d ago");
    }
    if ReadTimeAgo(s).Some? && s != "now" {
      if EndsWith(s, " min ago") {
        ShownCount(s, " min ago");
      } else if EndsWith(s, "h ago") {
        ShownCount(s, "h ago");
      } else {
        ShownCount(s, "d ago");
      }
    }
  }

  /** A text that reads as a count before a suffix is that count, as String() writes it, then the suffix. */
  lemma ShownCount(s: string, suffix: string)
    requires EndsWith(s, suffix) && CountBefore(s, |suffix|).Some?
    ensures s == NatToString(CountBefore(s, |suffix|).value) + suffix
  {
    var p := s[..|s| - |suffix|];
    CanonicalDigits(p);
    assert s == p + s[|s| - |suffix|..];
  }

  /** The place of a form in the order the texts take as a sighting ages. */
  function Stage(t: TimeAgo): nat {
    match t
    case Now => 0
    case MinutesAgo(_) => 1
    case HoursAgo(_) => 2
    case DaysAgo(_) => 3
  }

  /**
   * As the minutes grow the text only moves on, now to minutes to hours to days, and within a form
   * the number shown never decreases.
   */
  lemma TimeAgoMonotone(m1: int, m2: int)
    requires m1 <= m2
    ensures Stage(ReadTimeAgo(FormatTimeAgo(m1)).value) <= Stage(ReadTimeAgo(FormatTimeAgo(m2)).value)
    ensures var a, b := ReadTimeAgo(FormatTimeAgo(m1)).value, ReadTimeAgo(FormatTimeAgo(m2)).value;
      Stage(a) == Stage(b) && !a.Now? ==> a.n <= b.n
  {
    var a, b := ReadTimeAgo(FormatTimeAgo(m1)).value, ReadTimeAgo(FormatTimeAgo(m2)).value;
    if a.HoursAgo? && b.HoursAgo? {
      assert a.n * 60 < (b.n + 1) * 60;
    }
    if a.DaysAgo? && b.DaysAgo? {
      assert a.n * 1440 < (b.n + 1) * 1440;
    }
  }

  /** Numbers of one and two digits, as String() writes them. */
  lemma ShortNumbers(n: nat)
    requires n < 100
    ensures NatToString(n) == if n < 10 then [DigitChar(n)] else [DigitChar(n / 10), DigitChar(n % 10)]
  {
  }

  /** The texts the client's tests expect at the edges of the forms. */
  lemma NowExample()
    ensures FormatTimeAgo(4) == "now"
  {
  }

  lemma MinuteExample()
    ensures FormatTimeAgo(59) == "59 min ago"
  {
    ShortNumbers(59);
  }

  lemma HourExample()
    ensures FormatTimeAgo(1439) == "23h ago"
  {
    ShortNumbers(23);
  }

  lemma DayExample()
    ensures FormatTimeAgo(10080) == "7d ago"
  {
    ShortNumbers(7);
  }
}
