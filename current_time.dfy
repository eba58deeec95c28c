/**
 * formatCurrentTime: a local time of day as the map legend shows it, the hour
 * on the 12-hour dial, the minutes padded to two digits and AM or PM. The text
 * is read back by ReadClock, so that it is shown to determine the time.
 */
module CurrentTime {
  import opened Wrappers
  import opened Decimal

  /** hours % 12 || 12: the hour on the 12-hour dial, where 0 and 12 both show as 12. */
  function Hours12(hours: int): (h: int)
    requires 0 <= hours < 24
    ensures 1 <= h <= 12 && h % 12 == hours % 12
  {
    if hours % 12 == 0 then 12 else hours % 12
  }

  function Meridiem(hours: int): (m: string)
    ensures m == "PM" <==> hours >= 12
    ensures m == "AM" <==> hours < 12
  {
    if hours >= 12 then "PM" else "AM"
  }

  /** The hour of the day a 12-hour value and its half of the day stand for. */
  function Hours24(h12: int, pm: bool): int {
    h12 % 12 + if pm then 12 else 0
  }

  /** formatCurrentTime on the hours and minutes getHours and getMinutes give. */
  function FormatCurrentTime(hours: int, minutes: int): (s: string)
    requires 0 <= hours < 24 && 0 <= minutes < 60
    ensures ClockShape(s)
    ensures ReadClock(s) == Some((hours, minutes))
  {
    var h := NatToString(Hours12(hours));
    var m := PadStart(NatToString(minutes), 2);
    TwoDigitMinutes(minutes);
    NatToStringLength(Hours12(hours), 2);
    ClockParts(h, m, Meridiem(hours));
    HalfOfDay(hours);
    h + ":" + m + " " + Meridiem(hours)
  }

  /** The text matches /\d{1,2}:\d{2}\s*(AM|PM)/: one or two digits, a colon, two digits, a space, AM or PM. */
  predicate ClockShape(s: string) {
    (|s| == 7 || |s| == 8)
    && var k := |s| - 6;
       AllDigits(s[..k]) && s[k] == ':' && AllDigits(s[k + 1..k + 3]) && s[k + 3] == ' '
       && (s[k + 4..] == "AM" || s[k + 4..] == "PM")
  }

  /**
   * Hours and minutes of a text of that shape whose hour is written without a leading zero and
   * lies on the dial (1 to 12), and whose minutes are below 60; None for any other text.
   */
  function ReadClock(s: string): Option<(int, int)> {
    if !ClockShape(s) then None
    else
      var k := |s| - 6;
      var h, m := DigitsValue(s[..k]), DigitsValue(s[k + 1..k + 3]);
      if Canonical(s[..k]) && 1 <= h <= 12 && m < 60 then Some((Hours24(h, s[k + 4..] == "PM"), m)) else None
  }

  /** Every text ReadClock reads is the one formatCurrentTime writes for the time it reads. */
  lemma ReadClockExact(s: string)
    requires ReadClock(s).Some?
    ensures var (hours, minutes) := ReadClock(s).value;
      0 <= hours < 24 && 0 <= minutes < 60 && FormatCurrentTime(hours, minutes) == s
  {
    var k := |s| - 6;
    var hourText, minuteText, half := s[..k], s[k + 1..k + 3], s[k + 4..];
    var hours := Hours24(DigitsValue(hourText), half == "PM");
    DialHour(DigitsValue(hourText), half == "PM");
    CanonicalDigits(hourText);
    MinuteText(minuteText);
    ClockSplit(s);
    assert Meridiem(hours) == half;
  }

  /** A hour on the dial and its half of the day give an hour of the day that shows as that hour and half. */
  lemma DialHour(h: int, pm: bool)
    requires 1 <= h <= 12
    ensures 0 <= Hours24(h, pm) < 24 && Hours12(Hours24(h, pm)) == h
    ensures Meridiem(Hours24(h, pm)) == "PM" <==> pm
  {
  }

  /** Two digits below 60 are how padStart writes their value. */
  lemma MinuteText(t: string)
    requires |t| == 2 && AllDigits(t) && DigitsValue(t) < 60
    ensures PadStart(NatToString(DigitsValue(t)), 2) == t
  {
    TwoDigitMinutes(DigitsValue(t));
    SameDigits(PadStart(NatToString(DigitsValue(t)), 2), t);
  }

  lemma ClockSplit(s: string)
    requires ClockShape(s)
    ensures var k := |s| - 6; s == s[..k] + ":" + s[k + 1..k + 3] + " " + s[k + 4..]
  {
    var k := |s| - 6;
    assert s == s[..k] + [s[k]] + s[k + 1..k + 3] + [s[k + 3]] + s[k + 4..];
  }

  /** padStart(2, '0') writes every minute with exactly two digits. */
  lemma TwoDigitMinutes(minutes: int)
    requires 0 <= minutes < 60
    ensures var m := PadStart(NatToString(minutes), 2); |m| == 2 && AllDigits(m) && DigitsValue(m) == minutes
  {
    var d := NatToString(minutes);
    NatToStringLength(minutes, 2);
    assert Pow10(2) == 100;
    LeadingZerosValue(2 - |d|, d);
  }

  lemma ClockParts(h: string, m: string, ap: string)
    requires 1 <= |h| <= 2 && |m| == 2 && |ap| == 2
    ensures var s := h + ":" + m + " " + ap; var k := |s| - 6;
      |s| == |h| + 6 && s[..k] == h && s[k] == ':' && s[k + 1..k + 3] == m && s[k + 3] == ' ' && s[k + 4..] == ap
  {
  }

  /** The two halves of the day give the hour back from its 12-hour value. */
  lemma HalfOfDay(hours: int)
    requires 0 <= hours < 24
    ensures Hours24(Hours12(hours), Meridiem(hours) == "PM") == hours
  {
  }

  /** (12-hour value, AM/PM) determines the hour: the mapping on 0..23 is injective. */
  lemma TwelveHourInjective(h1: int, h2: int)
    requires 0 <= h1 < 24 && 0 <= h2 < 24
    requires Hours12(h1) == Hours12(h2) && Meridiem(h1) == Meridiem(h2)
    ensures h1 == h2
  {
    HalfOfDay(h1);
    HalfOfDay(h2);
  }

  /** Two times of day that show the same text are the same time. */
  lemma ClockInjective(h1: int, m1: int, h2: int, m2: int)
    requires 0 <= h1 < 24 && 0 <= m1 < 60 && 0 <= h2 < 24 && 0 <= m2 < 60
    requires FormatCurrentTime(h1, m1) == FormatCurrentTime(h2, m2)
    ensures h1 == h2 && m1 == m2
  {
  }

  /** Midnight, noon and an afternoon hour, as the dial shows them. */
  lemma DialExamples()
    ensures Hours12(0) == 12 && Meridiem(0) == "AM"
    ensures Hours12(12) == 12 && Meridiem(12) == "PM"
    ensures Hours12(13) == 1 && Hours12(23) == 11
  {
  }
}
