/**
 * The attendance decision of the `/attendance` handler (app.py:480-618):
 * from today's entry for the teacher (possibly absent), the current time of
 * day and COOLDOWN_MINUTES, decide between check-in, cooldown, check-out,
 * completed and invalid state, and name the store write that goes with it.
 */
module Decision {
  import opened Wrappers
  import opened Clock
  import opened WorkingHours
  import opened Records

  datatype Decision =
    | CheckIn                          // app.py:488-501
    | Cooldown(remaining: int)         // app.py:539-552
    | CheckOut(workingHours: string)   // app.py:554-573
    | Completed                        // app.py:595-605
    | InvalidState                     // app.py:608-618
    | TimeUnreadable                   // app.py:586-592: strptime raised on check_in or the current time

  /** The store write a decision asks for. */
  datatype Write =
    | NoWrite
    | WriteCheckIn(time: string)                          // create_check_in(teacher, date, time)
    | WriteCheckOut(time: string, workingHours: string)   // create_check_out(teacher, date, time, working_hours)

  /** `int(time_diff.total_seconds() / 60)`: elapsed whole minutes, across midnight if need be. */
  function MinutesPassed(checkIn: nat, now: nat): (m: nat)
    requires checkIn < SecondsPerDay && now < SecondsPerDay
    ensures m < 1440
    ensures m * 60 <= Elapsed(checkIn, now) < m * 60 + 60
  {
    Elapsed(checkIn, now) / 60
  }

  /**
   * The decision branches of `attendance()`. `now` is the current time as
   * the handler formats it; `cooldown` is COOLDOWN_MINUTES.
   */
  function Decide(today: Option<DayRecord>, now: string, cooldown: int): (d: Decision)
    ensures d.CheckIn? <==> NoRecord(today)
    ensures d.Completed? <==> !NoRecord(today) && IsCompleted(today.value)
    ensures d.Cooldown? ==> 1 <= d.remaining <= cooldown
    ensures d.CheckOut? ==> ParseClock(now).Some?
  {
    if NoRecord(today) then CheckIn
    else
      var rec := today.value;
      if Truthy(rec.checkIn) && !Truthy(rec.checkOut) then
        match (ParseClock(rec.checkIn.value), ParseClock(now))
        case (Some(a), Some(b)) =>
          var minutes := MinutesPassed(a, b);
          if minutes < cooldown then Cooldown(cooldown - minutes)
          else CheckOut(CalculateWorkingHours(rec.checkIn.value, now))
        case _ => TimeUnreadable
      else if Truthy(rec.checkIn) && Truthy(rec.checkOut) then Completed
      else InvalidState
  }

  /** The write a decision asks for: only check-in and check-out write, and they write the current time. */
  function WriteOf(d: Decision, now: string): (w: Write)
    ensures w.NoWrite? <==> !d.CheckIn? && !d.CheckOut?
    ensures w.WriteCheckIn? <==> d.CheckIn?
    ensures !w.NoWrite? ==> w.time == now
    ensures w.WriteCheckOut? ==> d == CheckOut(w.workingHours)
  {
    match d
    case CheckIn => WriteCheckIn(now)
    case CheckOut(wh) => WriteCheckOut(now, wh)
    case _ => NoWrite
  }

  /** Today's entry after the write. */
  function Apply(today: Option<DayRecord>, w: Write): (r: Option<DayRecord>)
    ensures w.NoWrite? ==> r == today
    ensures w.WriteCheckIn? ==> r == Some(DayRecord(Some(w.time), None, None))
    ensures w.WriteCheckOut? ==> r.Some? && r.value.checkOut == Some(w.time) && r.value.workingHours == Some(w.workingHours)
    ensures w.WriteCheckOut? ==> r.value.checkIn == if today.Some? then today.value.checkIn else None
  {
    match w
    case NoWrite => today
    case WriteCheckIn(t) => Some(CheckedIn(t))
    case WriteCheckOut(t, wh) => Some(CheckedOut(today, t, wh))
  }

  /**
   * No entry (or an empty one): check in, and the only write is
   * `create_check_in(teacher, today, now)`.
   */
  lemma NoRecordChecksIn(today: Option<DayRecord>, now: string, cooldown: int)
    requires NoRecord(today)
    ensures Decide(today, now, cooldown) == CheckIn
    ensures Apply(today, WriteOf(CheckIn, now)) == Some(DayRecord(Some(now), None, None))
  {
  }

  /**
   * Checked in, not out, fewer than `cooldown` whole minutes since: cooldown
   * with `cooldown - minutes` remaining (between 1 and `cooldown`), no write.
   */
  lemma CooldownCase(rec: DayRecord, now: string, cooldown: int, a: nat, b: nat)
    requires Truthy(rec.checkIn) && !Truthy(rec.checkOut)
    requires ParseClock(rec.checkIn.value) == Some(a) && ParseClock(now) == Some(b)
    requires MinutesPassed(a, b) < cooldown
    ensures Decide(Some(rec), now, cooldown) == Cooldown(cooldown - MinutesPassed(a, b))
    ensures 1 <= cooldown - MinutesPassed(a, b) <= cooldown
    ensures WriteOf(Decide(Some(rec), now, cooldown), now) == NoWrite
  {
  }

  /**
   * Checked in, not out, at least `cooldown` whole minutes since (the
   * boundary itself included): check out, writing the current time and
   * `calculate_working_hours(check_in, now)`, which reads back as the
   * elapsed whole minutes; the check-in time is kept.
   */
  lemma CheckOutCase(rec: DayRecord, now: string, cooldown: int, a: nat, b: nat)
    requires Truthy(rec.checkIn) && !Truthy(rec.checkOut)
    requires ParseClock(rec.checkIn.value) == Some(a) && ParseClock(now) == Some(b)
    requires MinutesPassed(a, b) >= cooldown
    ensures var wh := CalculateWorkingHours(rec.checkIn.value, now);
      && Decide(Some(rec), now, cooldown) == CheckOut(wh)
      && Apply(Some(rec), WriteOf(CheckOut(wh), now)) == Some(DayRecord(rec.checkIn, Some(now), Some(wh)))
      && ParseDuration(wh).Some?
      && ParseDuration(wh).value.0 * 60 + ParseDuration(wh).value.1 == MinutesPassed(a, b)
  {
    WorkingHoursMeaning(rec.checkIn.value, now, a, b);
  }

  /** Both times set: completed, no write, and the entry is left as it is. */
  lemma CompletedIsTerminal(rec: DayRecord, now: string, cooldown: int)
    requires IsCompleted(rec)
    ensures Decide(Some(rec), now, cooldown) == Completed
    ensures Apply(Some(rec), WriteOf(Completed, now)) == Some(rec)
  {
  }

  /** A non-empty entry without a check-in time: invalid state, no write. */
  lemma MissingCheckInIsInvalid(rec: DayRecord, now: string, cooldown: int)
    requires rec != DayRecord(None, None, None) && !Truthy(rec.checkIn)
    ensures Decide(Some(rec), now, cooldown) == InvalidState
    ensures WriteOf(InvalidState, now) == NoWrite
  {
  }

  /** The decisions taken for a series of scans by one teacher on one date, each seeing the previous writes. */
  function Run(today: Option<DayRecord>, nows: seq<string>, cooldown: int): (ds: seq<Decision>)
    ensures |ds| == |nows|
    decreases |nows|
  {
    if nows == [] then []
    else
      var d := Decide(today, nows[0], cooldown);
      [d] + Run(Apply(today, WriteOf(d, nows[0])), nows[1..], cooldown)
  }

  function CountCheckIns(ds: seq<Decision>): nat {
    if ds == [] then 0 else (if ds[0].CheckIn? then 1 else 0) + CountCheckIns(ds[1..])
  }

  function CountCheckOuts(ds: seq<Decision>): nat {
    if ds == [] then 0 else (if ds[0].CheckOut? then 1 else 0) + CountCheckOuts(ds[1..])
  }

  /** Once the date has a non-empty entry, no later scan checks in again. */
  lemma {:induction false} NoSecondCheckIn(today: Option<DayRecord>, nows: seq<string>, cooldown: int)
    requires !NoRecord(today)
    ensures CountCheckIns(Run(today, nows, cooldown)) == 0
    decreases |nows|
  {
    if nows != [] {
      var d := Decide(today, nows[0], cooldown);
      var next := Apply(today, WriteOf(d, nows[0]));
      assert !NoRecord(next);
      NoSecondCheckIn(next, nows[1..], cooldown);
    }
  }

  /** A completed day answers every later scan with Completed and never changes. */
  lemma {:induction false} CompletedStaysCompleted(rec: DayRecord, nows: seq<string>, cooldown: int)
    requires IsCompleted(rec)
    ensures forall i :: 0 <= i < |nows| ==> Run(Some(rec), nows, cooldown)[i] == Completed
    ensures CountCheckOuts(Run(Some(rec), nows, cooldown)) == 0
    decreases |nows|
  {
    if nows != [] {
      CompletedStaysCompleted(rec, nows[1..], cooldown);
    }
  }

  /** Once the date has a non-empty entry, at most one later scan checks out. */
  lemma {:induction false} AtMostOneCheckOut(today: Option<DayRecord>, nows: seq<string>, cooldown: int)
    requires !NoRecord(today)
    ensures CountCheckOuts(Run(today, nows, cooldown)) <= 1
    decreases |nows|
  {
    if nows != [] {
      var d := Decide(today, nows[0], cooldown);
      var next := Apply(today, WriteOf(d, nows[0]));
      if d.CheckOut? {
        assert next.value.checkOut == Some(nows[0]);
        assert IsCompleted(next.value);
        CompletedStaysCompleted(next.value, nows[1..], cooldown);
      } else {
        AtMostOneCheckOut(next, nows[1..], cooldown);
      }
    }
  }

  /**
   * Whatever the date's entry starts as and whatever the scan times are,
   * a series of scans on one date checks in at most once and checks out at
   * most once.
   */
  lemma AtMostOncePerDay(today: Option<DayRecord>, nows: seq<string>, cooldown: int)
    ensures CountCheckIns(Run(today, nows, cooldown)) <= 1
    ensures CountCheckOuts(Run(today, nows, cooldown)) <= 1
  {
    if nows != [] {
      var d := Decide(today, nows[0], cooldown);
      var next := Apply(today, WriteOf(d, nows[0]));
      assert !NoRecord(next);
      NoSecondCheckIn(next, nows[1..], cooldown);
      if d.CheckOut? {
        assert IsCompleted(next.value);
        CompletedStaysCompleted(next.value, nows[1..], cooldown);
      } else {
        AtMostOneCheckOut(next, nows[1..], cooldown);
      }
    }
  }

  /** Exactly `cooldown` minutes after `a` count as `cooldown` whole minutes; a second less counts one fewer. */
  lemma BoundaryMinutes(a: nat, cooldown: int)
    requires cooldown >= 1 && a + cooldown * 60 < SecondsPerDay
    ensures MinutesPassed(a, a + cooldown * 60) == cooldown
    ensures MinutesPassed(a, a + cooldown * 60 - 1) == cooldown - 1
  {
    var n := a + cooldown * 60;
    assert Elapsed(a, n) == cooldown * 60;
    assert Elapsed(a, n - 1) == (cooldown - 1) * 60 + 59;
  }

  /**
   * The cooldown boundary is inclusive: a scan exactly `cooldown` minutes
   * after the check-in checks out, and one a second earlier is told to
   * wait one more minute.
   */
  lemma CooldownBoundary(checkIn: string, now: string, early: string, cooldown: int, a: nat)
    requires cooldown >= 1
    requires ParseClock(checkIn) == Some(a) && a + cooldown * 60 < SecondsPerDay
    requires ParseClock(now) == Some(a + cooldown * 60)
    requires ParseClock(early) == Some(a + cooldown * 60 - 1)
    ensures Decide(Some(CheckedIn(checkIn)), now, cooldown) == CheckOut(CalculateWorkingHours(checkIn, now))
    ensures Decide(Some(CheckedIn(checkIn)), early, cooldown) == Cooldown(1)
  {
    assert checkIn != "";
    var n := a + cooldown * 60;
    BoundaryMinutes(a, cooldown);
  }

  /**
   * A scan earlier in the day than the check-in counts from the next day:
   * `cooldown` is measured, and the working hours are counted, across
   * midnight.
   */
  lemma MidnightCheckOut(checkIn: string, now: string, cooldown: int, a: nat, b: nat)
    requires ParseClock(checkIn) == Some(a) && ParseClock(now) == Some(b)
    requires b < a && (b + SecondsPerDay - a) / 60 >= cooldown
    ensures var wh := CalculateWorkingHours(checkIn, now);
      && Decide(Some(CheckedIn(checkIn)), now, cooldown) == CheckOut(wh)
      && ParseDuration(wh).Some?
      && ParseDuration(wh).value.0 * 60 + ParseDuration(wh).value.1 == (b + SecondsPerDay - a) / 60
  {
    assert checkIn != "";
    CheckOutCase(CheckedIn(checkIn), now, cooldown, a, b);
  }
}
