/**
 * The documents the backend keeps per teacher: the teacher record written at
 * registration (database.py:71-76) and the per-date attendance entry written
 * by check-in and check-out (database.py:197-199, 238-244).
 */
module Records {
  import opened Wrappers

  /**
   * One date's entry of a teacher's `attendance` map: a dict that may hold
   * the keys check_in, check_out and working_hours (None = key absent).
   */
  datatype DayRecord = DayRecord(checkIn: Option<string>, checkOut: Option<string>, workingHours: Option<string>)

  /** Python truthiness of a looked-up string field: present and not "". */
  predicate Truthy(field: Option<string>) {
    field.Some? && field.value != ""
  }

  /** `not today_attendance`: no entry for the date, or an empty dict. */
  predicate NoRecord(today: Option<DayRecord>) {
    today.None? || today.value == DayRecord(None, None, None)
  }

  /** Both times are set: the day is closed. */
  predicate IsCompleted(r: DayRecord) {
    Truthy(r.checkIn) && Truthy(r.checkOut)
  }

  /** What `create_check_in` stores for the date: exactly `{check_in: time}` (database.py:197-199). */
  function CheckedIn(time: string): (r: DayRecord)
    ensures r.checkIn == Some(time) && r.checkOut.None? && r.workingHours.None?
    ensures time != "" ==> !NoRecord(Some(r)) && Truthy(r.checkIn) && !IsCompleted(r)
  {
    DayRecord(Some(time), None, None)
  }

  /**
   * What `create_check_out` stores for the date (database.py:238-244): the
   * existing entry, or `{}` when there is none, updated with check_out and
   * working_hours; a check_in already there is kept.
   */
  function CheckedOut(existing: Option<DayRecord>, time: string, workingHours: string): (r: DayRecord)
    ensures r.checkOut == Some(time) && r.workingHours == Some(workingHours)
    ensures r.checkIn == if existing.Some? then existing.value.checkIn else None
  {
    var base := existing.GetOr(DayRecord(None, None, None));
    base.(checkOut := Some(time), workingHours := Some(workingHours))
  }

  /** A teacher document (database.py:71-76). */
  datatype Teacher = Teacher(name: string, department: string, fingerprintId: int, attendance: map<string, DayRecord>)
}
