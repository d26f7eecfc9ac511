/**
 * `calculate_working_hours` (app.py:18-52): the time between a check-in and
 * a check-out, given as "H hours M minutes", and a reader for that text
 * that recovers the two numbers.
 */
module WorkingHours {
  import opened Wrappers
  import opened Text
  import opened Clock

  const HoursWord: string := " hours "
  const MinutesWord: string := " minutes"

  /** Reads "H hours M minutes" back into (H, M); None for any other text. */
  function ParseDuration(s: string): Option<(nat, nat)> {
    var k := DigitRun(s);
    var rest := s[k..];
    if k == 0 || |rest| < |HoursWord| || rest[..|HoursWord|] != HoursWord then None
    else
      var t := rest[|HoursWord|..];
      var j := DigitRun(t);
      if j == 0 || t[j..] != MinutesWord then None
      else Some((DigitsValue(s[..k]), DigitsValue(t[..j])))
  }

  /** The f-string `f"{hours} hours {minutes} minutes"`. */
  function FormatDuration(hours: nat, minutes: nat): string {
    NatToString(hours) + HoursWord + NatToString(minutes) + MinutesWord
  }

  /** Formatting and then reading a duration gives back the same hours and minutes. */
  lemma DurationRoundTrip(hours: nat, minutes: nat)
    ensures ParseDuration(FormatDuration(hours, minutes)) == Some((hours, minutes))
  {
    var a, b := NatToString(hours), NatToString(minutes);
    var s := FormatDuration(hours, minutes);
    assert s == a + (HoursWord + b + MinutesWord);
    DigitRunOfPrefix(a, HoursWord + b + MinutesWord);
    assert s[..|a|] == a;
    var rest := s[|a|..];
    assert rest == HoursWord + (b + MinutesWord);
    var t := rest[|HoursWord|..];
    assert t == b + MinutesWord;
    DigitRunOfPrefix(b, MinutesWord);
    assert t[..|b|] == b && t[|b|..] == MinutesWord;
    NatToStringValue(hours);
    NatToStringValue(minutes);
  }

  /** The text every failure to read the two times falls back to (app.py:50-52). */
  const NoDuration: string := "0 hours 0 minutes"

  /**
   * `calculate_working_hours(check_in_time, check_out_time)`: both times
   * are read with "%H:%M:%S"; a check-out earlier in the day than the
   * check-in counts as the next day; the whole seconds between them are
   * split into whole hours and the whole minutes left over. Text that does
   * not read as a time gives "0 hours 0 minutes".
   */
  function CalculateWorkingHours(checkIn: string, checkOut: string): (r: string)
    ensures ParseClock(checkIn).None? || ParseClock(checkOut).None? ==> r == NoDuration
  {
    match (ParseClock(checkIn), ParseClock(checkOut))
    case (Some(a), Some(b)) =>
      var total := Elapsed(a, b);
      FormatDuration(total / 3600, total % 3600 / 60)
    case _ => NoDuration
  }

  /**
   * For two readable times, the result reads back as H hours and M minutes
   * with M < 60 and H < 24, and H * 60 + M is the elapsed time in whole
   * minutes (seconds left over are dropped).
   */
  lemma WorkingHoursMeaning(checkIn: string, checkOut: string, a: nat, b: nat)
    requires ParseClock(checkIn) == Some(a) && ParseClock(checkOut) == Some(b)
    ensures ParseDuration(CalculateWorkingHours(checkIn, checkOut)).Some?
    ensures var (h, m) := ParseDuration(CalculateWorkingHours(checkIn, checkOut)).value;
      h < 24 && m < 60 && h * 60 + m == Elapsed(a, b) / 60
  {
    var total := Elapsed(a, b);
    DurationRoundTrip(total / 3600, total % 3600 / 60);
  }

  /** Equal times give "0 hours 0 minutes". */
  lemma WorkingHoursOfEqualTimes(t: string)
    requires ParseClock(t).Some?
    ensures CalculateWorkingHours(t, t) == NoDuration
  {
    var a := ParseClock(t).value;
    WorkingHoursOfReadable(t, t, a, a);
    assert Elapsed(a, a) == 0;
    assert FormatDuration(0, 0) == NoDuration;
  }

  /** Two readable times: the text is built from the whole hours and minutes elapsed. */
  lemma WorkingHoursOfReadable(checkIn: string, checkOut: string, a: nat, b: nat)
    requires ParseClock(checkIn) == Some(a) && ParseClock(checkOut) == Some(b)
    ensures CalculateWorkingHours(checkIn, checkOut) == FormatDuration(Elapsed(a, b) / 3600, Elapsed(a, b) % 3600 / 60)
  {
  }
}
