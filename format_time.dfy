/** Relative and calendar time labels. Time differences are whole milliseconds; the
    locale-dependent parts (the rendered date and clock time, the calendar day) are given
    as opaque strings and day numbers. */
module FormatTime {
  import opened Strings

  const MinuteMs := 60000
  const HourMs := 3600000
  const DayMs := 86400000

  /** Which label `formatTimestamp` picks. */
  datatype Ago = JustNow | MinutesAgo(mins: nat) | HoursAgo(hours: nat) | DaysAgo(days: nat) | OnDate(withYear: bool)

  /** The bucket for a difference of `diffMs` milliseconds between now and the timestamp.
      `Math.floor` of a quotient by a positive constant is Dafny's `/`. */
  function Bucket(diffMs: int): (b: Ago)
    ensures b == JustNow <==> diffMs < MinuteMs
    ensures b.MinutesAgo? <==> MinuteMs <= diffMs < HourMs
    ensures b.MinutesAgo? ==> b.mins == diffMs / MinuteMs && 1 <= b.mins < 60
    ensures b.HoursAgo? <==> HourMs <= diffMs < DayMs
    ensures b.HoursAgo? ==> b.hours == diffMs / HourMs && 1 <= b.hours < 24
    ensures b.DaysAgo? <==> DayMs <= diffMs < 7 * DayMs
    ensures b.DaysAgo? ==> b.days == diffMs / DayMs && 1 <= b.days < 7
    ensures b.OnDate? <==> diffMs >= 7 * DayMs
    ensures b.OnDate? ==> (b.withYear <==> diffMs >= 366 * DayMs)
  {
    var diffMins := diffMs / MinuteMs;
    var diffHours := diffMs / HourMs;
    var diffDays := diffMs / DayMs;
    if diffMins < 1 then JustNow
    else if diffMins < 60 then MinutesAgo(diffMins)
    else if diffHours < 24 then HoursAgo(diffHours)
    else if diffDays < 7 then DaysAgo(diffDays)
    else OnDate(diffDays > 365)
  }

  /** `formatTimestamp`: `localeDate(withYear)` is the date `toLocaleDateString` renders,
      with or without the year. */
  function FormatTimestamp(diffMs: int, localeDate: bool -> string): (r: string)
    ensures diffMs < MinuteMs ==> r == "Just now"
    ensures MinuteMs <= diffMs < HourMs ==> r == NatToString(diffMs / MinuteMs) + "m ago"
    ensures HourMs <= diffMs < DayMs ==> r == NatToString(diffMs / HourMs) + "h ago"
    ensures DayMs <= diffMs < 7 * DayMs ==> r == NatToString(diffMs / DayMs) + "d ago"
    ensures diffMs >= 7 * DayMs ==> r == localeDate(diffMs >= 366 * DayMs)
  {
    match Bucket(diffMs)
    case JustNow => "Just now"
    case MinutesAgo(n) => NatToString(n) + "m ago"
    case HoursAgo(n) => NatToString(n) + "h ago"
    case DaysAgo(n) => NatToString(n) + "d ago"
    case OnDate(withYear) => localeDate(withYear)
  }

  /** A relative label is a number followed by its unit: reading the digits back gives the
      elapsed whole minutes, hours or days. */
  lemma RelativeLabelReadsBack(diffMs: int, localeDate: bool -> string)
    requires MinuteMs <= diffMs < 7 * DayMs
    ensures var r := FormatTimestamp(diffMs, localeDate);
      var unit := if diffMs < HourMs then "m ago" else if diffMs < DayMs then "h ago" else "d ago";
      var divisor := if diffMs < HourMs then MinuteMs else if diffMs < DayMs then HourMs else DayMs;
      && |r| > |unit| && r[|r| - |unit|..] == unit
      && (forall k | 0 <= k < |r| - |unit| :: '0' <= r[k] <= '9')
      && DigitsValue(r[..|r| - |unit|]) == diffMs / divisor
  {
    var r := FormatTimestamp(diffMs, localeDate);
    var n: nat := if diffMs < HourMs then diffMs / MinuteMs else if diffMs < DayMs then diffMs / HourMs else diffMs / DayMs;
    var unit := if diffMs < HourMs then "m ago" else if diffMs < DayMs then "h ago" else "d ago";
    assert r == NatToString(n) + unit;
    assert r[..|r| - |unit|] == NatToString(n);
    NatToStringValue(n);
  }

  /** `formatMessageTime`: the clock time alone today, after "Yesterday " the day before,
      and after the date otherwise. `day` and `today` number calendar days. */
  function FormatMessageTime(day: int, today: int, timeStr: string, dateStr: string): (r: string)
    ensures |r| >= |timeStr| && r[|r| - |timeStr|..] == timeStr
    ensures day == today ==> r == timeStr
    ensures day == today - 1 ==> r == "Yesterday " + timeStr
    ensures day != today && day != today - 1 ==> r == dateStr + " " + timeStr
  {
    if day == today then timeStr
    else if day == today - 1 then "Yesterday " + timeStr
    else dateStr + " " + timeStr
  }
}
