/**
 * Times of day as the backend writes and reads them: `strftime("%H:%M:%S")`
 * to write, `datetime.strptime(s, "%H:%M:%S")` to read, and the difference
 * of two times of day with the next-day adjustment (app.py:527-536 and
 * app.py:35-44).
 */
module Clock {
  import opened Wrappers
  import opened Text

  const SecondsPerDay: nat := 86400

  /**
   * One numeric field of "%H:%M:%S" as `strptime` reads it: one or two
   * digits, two whenever two are there. Gives the value and the number of
   * characters read.
   */
  function TakeField(s: string): (r: Option<(nat, nat)>)
    ensures r.Some? ==> 1 <= r.value.1 <= 2 && r.value.1 <= |s| && r.value.0 < 100
    ensures r.Some? ==> AllDigits(s[..r.value.1]) && r.value.0 == DigitsValue(s[..r.value.1])
    ensures r.None? <==> s == [] || !IsDigit(s[0])
    ensures r.Some? ==> (r.value.1 == 2 <==> |s| >= 2 && IsDigit(s[1]))
  {
    if |s| >= 2 && IsDigit(s[0]) && IsDigit(s[1]) then
      assert s[..2] == [s[0], s[1]];
      DigitsValueTwo(s[0], s[1]);
      Some((DigitValue(s[0]) * 10 + DigitValue(s[1]), 2))
    else if |s| >= 1 && IsDigit(s[0]) then
      assert s[..1] == [s[0]] && s[..1][..0] == [];
      Some((DigitValue(s[0]), 1))
    else
      None
  }

  /**
   * `datetime.strptime(s, "%H:%M:%S").time()` as a second of the day, or
   * None where Python raises ValueError: each field is one or two ASCII
   * digits, the fields are separated by ':', nothing follows the seconds,
   * and hours <= 23, minutes <= 59, seconds <= 59 (the pattern lets seconds
   * 60 and 61 through, and building the datetime then rejects them).
   */
  function ParseClock(s: string): (r: Option<nat>)
    ensures r.Some? ==> r.value < SecondsPerDay
  {
    match TakeField(s)
    case None => None
    case Some((h, i)) =>
      if i < |s| && s[i] == ':' then
        var s1 := s[i + 1..];
        match TakeField(s1)
        case None => None
        case Some((m, j)) =>
          if j < |s1| && s1[j] == ':' then
            var s2 := s1[j + 1..];
            match TakeField(s2)
            case None => None
            case Some((sec, k)) =>
              if k == |s2| && h < 24 && m < 60 && sec < 60 then Some(h * 3600 + m * 60 + sec) else None
          else None
      else None
  }

  function TwoDigits(n: nat): (s: string)
    requires n < 100
    ensures |s| == 2 && AllDigits(s) && DigitsValue(s) == n
  {
    DigitsValueTwo(DigitChar(n / 10), DigitChar(n % 10));
    [DigitChar(n / 10), DigitChar(n % 10)]
  }

  /** `strftime("%H:%M:%S")` of a second of the day: zero-padded, eight characters. */
  function FormatClock(t: nat): (s: string)
    requires t < SecondsPerDay
    ensures |s| == 8 && s[2] == ':' && s[5] == ':'
  {
    TwoDigits(t / 3600) + ":" + TwoDigits(t / 60 % 60) + ":" + TwoDigits(t % 60)
  }

  /** What the clock writes, `strptime` reads back as the same second of the day. */
  lemma FormatClockRoundTrip(t: nat)
    requires t < SecondsPerDay
    ensures ParseClock(FormatClock(t)) == Some(t)
  {
    ClockFields(t);
    ReadsAs(FormatClock(t), t / 3600, t / 60 % 60, t % 60);
  }

  /** Hours, minutes and seconds of a second of the day are in range and add back up to it. */
  lemma ClockFields(t: nat)
    requires t < SecondsPerDay
    ensures t / 3600 < 24 && t / 60 % 60 < 60 && t % 60 < 60
    ensures t / 3600 * 3600 + t / 60 % 60 * 60 + t % 60 == t
  {
    var h, r := t / 3600, t % 3600;
    assert t == h * 3600 + r;
    assert t / 60 == h * 60 + r / 60;
    assert t / 60 % 60 == r / 60;
    assert t % 60 == r % 60;
  }

  /** A zero-padded "HH:MM:SS" with fields in range reads as the second it names. */
  lemma ReadsAs(s: string, h: nat, m: nat, sec: nat)
    requires h < 24 && m < 60 && sec < 60
    requires s == TwoDigits(h) + ":" + TwoDigits(m) + ":" + TwoDigits(sec)
    ensures ParseClock(s) == Some(h * 3600 + m * 60 + sec)
  {
    assert s[..2] == TwoDigits(h);
    var s1 := s[3..];
    assert s1[..2] == TwoDigits(m);
    var s2 := s1[3..];
    assert s2 == TwoDigits(sec);
    assert TakeField(s) == Some((h, 2));
    assert TakeField(s1) == Some((m, 2));
    assert TakeField(s2) == Some((sec, 2));
  }

  /** Examples of what `strptime` accepts: zero-padded or one-digit fields. */
  lemma ParseClockAccepts()
    ensures ParseClock("09:00:00") == Some(32400)
    ensures ParseClock("9:5:3") == Some(32703)
  {
    assert TakeField("09:00:00") == Some((9, 2));
    assert "09:00:00"[3..] == "00:00";
    assert TakeField("00:00") == Some((0, 2));
    assert "00:00"[3..] == "00";
    assert TakeField("9:5:3") == Some((9, 1));
    assert "9:5:3"[2..] == "5:3";
    assert TakeField("5:3") == Some((5, 1));
    assert "5:3"[2..] == "3";
  }

  /** Examples of what `strptime` refuses: hour 24, second 60, a three-digit field, nothing at all. */
  lemma ParseClockRejects()
    ensures ParseClock("24:00:00") == None
    ensures ParseClock("12:00:60") == None
    ensures ParseClock("12:00:000") == None
    ensures ParseClock("") == None
  {
    assert TakeField("24:00:00") == Some((24, 2));
    assert "12:00:60"[3..] == "00:60";
    assert "00:60"[3..] == "60";
    assert TakeField("12:00:60") == Some((12, 2));
    assert TakeField("60") == Some((60, 2));
    assert "12:00:000"[3..] == "00:000";
    assert "00:000"[3..] == "000";
    assert TakeField("12:00:000") == Some((12, 2));
    assert TakeField("000") == Some((0, 2));
  }

  /**
   * Seconds from `from` to `to`, where a `to` earlier in the day than
   * `from` is taken to be on the next day (app.py:39-40, app.py:531-532).
   */
  function Elapsed(from: nat, to: nat): (e: nat)
    requires from < SecondsPerDay && to < SecondsPerDay
    ensures e < SecondsPerDay
    ensures (from + e) % SecondsPerDay == to
  {
    if to < from then to + SecondsPerDay - from else to - from
  }

  /** The elapsed time is the only duration shorter than a day that leads from `from` to `to`. */
  lemma ElapsedUnique(from: nat, to: nat, e: nat)
    requires from < SecondsPerDay && to < SecondsPerDay
    requires e < SecondsPerDay && (from + e) % SecondsPerDay == to
    ensures e == Elapsed(from, to)
  {
    if from + e < SecondsPerDay {
      assert (from + e) % SecondsPerDay == from + e;
    } else {
      assert (from + e) % SecondsPerDay == from + e - SecondsPerDay;
    }
  }
}
