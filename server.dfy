/**
 * The request handlers of app.py over the store: the mode gate, the
 * registration checks, the single-slot hand-off of the last scanned
 * fingerprint (`_latest_fingerprint_id`), the attendance endpoint and the
 * flattening of `/teachers`. Requests arrive already decoded into typed
 * values; responses are data carrying the HTTP status.
 */
module Server {
  import opened Wrappers
  import opened Text
  import opened Clock
  import opened Records
  import opened Decision
  import opened Database

  /** A request's fingerprint_id: missing or null, convertible by `int()`, or not. */
  datatype FpField = FpMissing | FpInt(value: int) | FpInvalid

  /** The body of POST /attendance and POST /register-fingerprint. */
  datatype ScanRequest = ScanNotJson | ScanJson(fingerprint: FpField)

  /**
   * The body of POST /register: JSON or form data; name and department as
   * sent ("" when absent). For form data, FpMissing stands for a value
   * that is empty after `strip()`.
   */
  datatype RegisterRequest = RegisterRequest(isJson: bool, name: string, department: string, fingerprint: FpField)

  /** The body of POST /mode; `mode` is "" when absent. */
  datatype ModeRequest = ModeNotJson | ModeJson(mode: string)

  /** The last fingerprint scanned in register mode, waiting for the registration form. */
  datatype Scan = Scan(fingerprintId: int, timestamp: string)

  datatype ModeResponse =
    | ModeBodyNotJson          // app.py:106-111
    | ModeNotAllowed           // app.py:116-121
    | ModeSet(mode: string)    // app.py:125-131
    | ModeSetFailed            // app.py:132-137
  {
    function Status(): int {
      match this
      case ModeSet(_) => 200
      case ModeSetFailed => 500
      case _ => 400
    }
  }

  datatype RegisterResponse =
    | RegisterWrongMode(mode: string)      // app.py:176-180
    | RegisterUnreadable                   // app.py:192 raises, caught at app.py:245-250
    | RegisterMissingFields                // app.py:195-199
    | RegisterInvalidFingerprint           // app.py:202-208
    | RegisterDuplicate(fingerprintId: int)// app.py:211-216
    | Registered(name: string, teacherId: string) // app.py:229-238
  {
    function Status(): int {
      match this
      case RegisterWrongMode(_) => 403
      case RegisterUnreadable => 500
      case Registered(_, _) => 201
      case _ => 400
    }
  }

  datatype FingerprintResponse =
    | ScanWrongMode(mode: string)          // app.py:275-280
    | ScanBodyNotJson                      // app.py:283-288
    | ScanMissingFingerprint               // app.py:294-299
    | ScanInvalidFingerprint               // app.py:301-308
    | ScanDuplicate(fingerprintId: int)    // app.py:311-317
    | ScanStored(fingerprintId: int)       // app.py:320-331
  {
    function Status(): int {
      match this
      case ScanWrongMode(_) => 403
      case ScanStored(_) => 200
      case _ => 400
    }
  }

  /** GET /register-fingerprint/latest (app.py:356-366). */
  datatype LatestResponse = Waiting | Ready(fingerprintId: int, timestamp: string)

  datatype AttendanceResponse =
    | AttendanceWrongMode(mode: string)                // app.py:428-433
    | AttendanceBodyNotJson                            // app.py:436-441
    | AttendanceMissingFingerprint                     // app.py:446-451
    | AttendanceInvalidFingerprint                     // app.py:454-461
    | NotFound(fingerprintId: int)                     // app.py:466-473
    | CheckedInResponse(name: string, department: string, checkIn: string)            // app.py:490-501
    | CheckInFailed(name: string, department: string)                                 // app.py:502-512
    | CooldownResponse(remaining: int, name: string, department: string, checkIn: string) // app.py:539-552
    | CheckedOutResponse(name: string, department: string, checkIn: string, checkOut: string, workingHours: string) // app.py:560-573
    | CheckOutFailed(name: string, department: string)                                // app.py:574-584
    | CheckOutTimeError                                                               // app.py:586-592
    | CompletedResponse(name: string, department: string)                             // app.py:595-605
    | InvalidStateResponse(name: string, department: string)                          // app.py:608-618
  {
    function Status(): int {
      match this
      case AttendanceWrongMode(_) => 403
      case NotFound(_) => 404
      case CheckedInResponse(_, _, _) => 200
      case CheckedOutResponse(_, _, _, _, _) => 200
      case CheckInFailed(_, _) => 500
      case CheckOutFailed(_, _) => 500
      case CheckOutTimeError => 500
      case InvalidStateResponse(_, _) => 500
      case _ => 400
    }
  }

  /** POST /mode (app.py:105-137): the response and whether the mode document is written. */
  function SetModeSpec(req: ModeRequest): (r: ModeResponse)
    ensures r.ModeSet? <==> req.ModeJson? && IsMode(Lower(req.mode))
    ensures r.ModeSet? ==> r.mode == Lower(req.mode)
    ensures !r.ModeSetFailed?
  {
    match req
    case ModeNotJson => ModeBodyNotJson
    case ModeJson(m) => if IsMode(Lower(m)) then ModeSet(Lower(m)) else ModeNotAllowed
  }

  /**
   * POST /register (app.py:172-243) as a function of the current mode, the
   * request, the store and the fresh teacher id: the response and the
   * teachers map and stream order afterwards.
   */
  function RegisterSpec(mode: string, req: RegisterRequest, teachers: map<string, Teacher>, order: seq<string>, newId: string)
    : (r: (RegisterResponse, map<string, Teacher>, seq<string>))
    ensures r.0.RegisterWrongMode? <==> mode != RegisterMode
    ensures !r.0.Registered? ==> r.1 == teachers && r.2 == order
    ensures r.0.Registered? ==> r.0.teacherId == newId && newId in r.1
    ensures r.0.Registered? ==> req.fingerprint.FpInt? && r.1[newId].fingerprintId == req.fingerprint.value
    ensures r.0.Registered? ==> r.1[newId].name == r.0.name != "" && r.1[newId].department != ""
  {
    if mode != RegisterMode then (RegisterWrongMode(mode), teachers, order)
    else if !req.isJson && req.fingerprint.FpInvalid? then (RegisterUnreadable, teachers, order)
    else
      var name, department := Strip(req.name), Strip(req.department);
      if name == "" || department == "" || req.fingerprint.FpMissing? then (RegisterMissingFields, teachers, order)
      else if req.fingerprint.FpInvalid? then (RegisterInvalidFingerprint, teachers, order)
      else
        var fp := req.fingerprint.value;
        if FirstMatch(order, teachers, fp).Some? then (RegisterDuplicate(fp), teachers, order)
        else
          (Registered(name, newId),
           teachers[newId := Teacher(name, department, fp, map[])],
           if newId in teachers then order else order + [newId])
  }

  /** POST /register-fingerprint (app.py:270-331): the response; the slot is written only for ScanStored. */
  function RegisterFingerprintSpec(mode: string, req: ScanRequest, teachers: map<string, Teacher>, order: seq<string>)
    : (r: FingerprintResponse)
    ensures r.Status() == 403 <==> mode != RegisterMode
    ensures r.ScanStored? ==> mode == RegisterMode && req == ScanJson(FpInt(r.fingerprintId))
    ensures r.ScanStored? ==> FirstMatch(order, teachers, r.fingerprintId).None?
    ensures r.ScanDuplicate? ==> FirstMatch(order, teachers, r.fingerprintId).Some?
  {
    if mode != RegisterMode then ScanWrongMode(mode)
    else match req
      case ScanNotJson => ScanBodyNotJson
      case ScanJson(FpMissing) => ScanMissingFingerprint
      case ScanJson(FpInvalid) => ScanInvalidFingerprint
      case ScanJson(FpInt(fp)) =>
        if FirstMatch(order, teachers, fp).Some? then ScanDuplicate(fp) else ScanStored(fp)
  }

  /** The check_in value of today's entry as the handler echoes it ("" when there is none). */
  function StoredCheckIn(today: Option<DayRecord>): string {
    if today.Some? then today.value.checkIn.GetOr("") else ""
  }

  /** The response for a decision about teacher `t` whose entry for today was `today`. */
  function Respond(d: Decision, t: Teacher, today: Option<DayRecord>, now: string): (r: AttendanceResponse)
    ensures r.Status() == 200 <==> d.CheckIn? || d.CheckOut?
    ensures r.Status() == 500 <==> d.InvalidState? || d.TimeUnreadable?
    ensures r.Status() != 403 && r.Status() != 404
    ensures r.CheckedOutResponse? ==> d == CheckOut(r.workingHours) && r.checkOut == now
    ensures r.CooldownResponse? ==> d == Cooldown(r.remaining)
  {
    match d
    case CheckIn => CheckedInResponse(t.name, t.department, now)
    case Cooldown(remaining) => CooldownResponse(remaining, t.name, t.department, StoredCheckIn(today))
    case CheckOut(wh) => CheckedOutResponse(t.name, t.department, StoredCheckIn(today), now, wh)
    case Completed => CompletedResponse(t.name, t.department)
    case InvalidState => InvalidStateResponse(t.name, t.department)
    case TimeUnreadable => CheckOutTimeError
  }

  /**
   * POST /attendance (app.py:419-618) as a function of the current mode,
   * the request, the store, the current time, date and COOLDOWN_MINUTES:
   * the response and the teachers map afterwards.
   */
  function AttendanceSpec(mode: string, req: ScanRequest, teachers: map<string, Teacher>, order: seq<string>,
                          now: string, date: string, cooldown: int): (r: (AttendanceResponse, map<string, Teacher>))
    ensures r.0.Status() == 403 <==> mode != AttendanceMode
    ensures r.1.Keys == teachers.Keys
    ensures r.1 != teachers ==> r.0.CheckedInResponse? || r.0.CheckedOutResponse?
    ensures r.0.NotFound? ==> FirstMatch(order, teachers, r.0.fingerprintId).None?
  {
    if mode != AttendanceMode then (AttendanceWrongMode(mode), teachers)
    else match req
      case ScanNotJson => (AttendanceBodyNotJson, teachers)
      case ScanJson(FpMissing) => (AttendanceMissingFingerprint, teachers)
      case ScanJson(FpInvalid) => (AttendanceInvalidFingerprint, teachers)
      case ScanJson(FpInt(fp)) =>
        match FirstMatch(order, teachers, fp)
        case None => (NotFound(fp), teachers)
        case Some(id) =>
          var today := TodayAttendance(teachers, id, date);
          var d := Decide(today, now, cooldown);
          var w := WriteOf(d, now);
          var after := if w.NoWrite? then teachers else WithEntry(teachers, id, date, Apply(today, w).value);
          (Respond(d, teachers[id], today, now), after)
  }

  /** A row of the `/teachers` listing (app.py:645-664). */
  datatype Row = Row(teacherId: string, name: string, department: string, date: Option<string>,
                     checkIn: Option<string>, checkOut: Option<string>, workingHours: Option<string>)

  /** The row for one date of one teacher. */
  function DateRow(id: string, t: Teacher, date: string): Row
    requires date in t.attendance
  {
    var rec := t.attendance[date];
    Row(id, t.name, t.department, Some(date), rec.checkIn, rec.checkOut, rec.workingHours)
  }

  /** The rows a teacher contributes: one per date, or a single row of Nones when there is no attendance. */
  function RowsOf(id: string, t: Teacher): set<Row> {
    if t.attendance == map[] then {Row(id, t.name, t.department, None, None, None, None)}
    else set date | date in t.attendance :: DateRow(id, t, date)
  }

  /** Every row in `rows` belongs to teacher `id`. */
  predicate RowsOfTeacher(rows: seq<Row>, id: string) {
    forall k :: 0 <= k < |rows| ==> rows[k].teacherId == id
  }

  predicate Distinct(rows: seq<Row>) {
    forall i, j :: 0 <= i < j < |rows| ==> rows[i] != rows[j]
  }

  /**
   * The app's state: the store, the pending-fingerprint slot and
   * COOLDOWN_MINUTES. `Valid` adds to the store's invariant that no two
   * teachers share a fingerprint, which registration maintains.
   */
  class App {
    const db: Store
    const cooldown: int
    var latestFingerprint: Option<Scan>

    ghost predicate Valid()
      reads this, db
    {
      db.Valid() && UniqueFingerprints(db.teachers)
    }

    /**
     * The app started over the documents already stored (see
     * `Store`'s constructor), which must not share a fingerprint id.
     */
    constructor (teachers0: map<string, Teacher>, order0: seq<string>, modeDoc0: Option<ModeDoc>, cooldownMinutes: int)
      requires forall i, j :: 0 <= i < j < |order0| ==> order0[i] != order0[j]
      requires forall id :: id in teachers0 <==> id in order0
      requires UniqueFingerprints(teachers0)
      ensures Valid() && fresh(db)
      ensures db.teachers == teachers0 && db.order == order0 && db.modeDoc == modeDoc0
      ensures cooldown == cooldownMinutes && latestFingerprint == None
    {
      db := new Store(teachers0, order0, modeDoc0);
      cooldown := cooldownMinutes;
      latestFingerprint := None;
    }

    /** POST /mode (app.py:99-137). */
    method SetMode(req: ModeRequest, stamp: string) returns (r: ModeResponse)
      requires Valid()
      modifies db
      ensures Valid()
      ensures r == SetModeSpec(req)
      ensures db.modeDoc == if r.ModeSet? then Some(ModeDoc(Some(r.mode), stamp)) else old(db.modeDoc)
      ensures db.teachers == old(db.teachers) && db.order == old(db.order)
    {
      if !req.ModeJson? {
        return ModeBodyNotJson;
      }
      var mode := Lower(req.mode);
      if !IsMode(mode) {
        return ModeNotAllowed;
      }
      var ok := db.SetSystemMode(mode, stamp);
      r := if ok then ModeSet(mode) else ModeSetFailed;
    }

    /** POST /register (app.py:148-250); `newId` is the generated teacher id. */
    method Register(req: RegisterRequest, newId: string, stamp: string) returns (r: RegisterResponse)
      requires Valid()
      modifies this, db
      ensures Valid()
      ensures (r, db.teachers, db.order) == RegisterSpec(ModeOf(old(db.modeDoc)), req, old(db.teachers), old(db.order), newId)
      ensures db.modeDoc == ModeDocAfterRead(old(db.modeDoc), stamp)
      ensures latestFingerprint == if r.Registered? then None else old(latestFingerprint)
    {
      var mode := db.GetSystemMode(stamp);
      if mode != RegisterMode {
        return RegisterWrongMode(mode);
      }
      if !req.isJson && req.fingerprint.FpInvalid? {
        return RegisterUnreadable;
      }
      var name, department := Strip(req.name), Strip(req.department);
      if name == "" || department == "" || req.fingerprint.FpMissing? {
        return RegisterMissingFields;
      }
      if req.fingerprint.FpInvalid? {
        return RegisterInvalidFingerprint;
      }
      var fp := req.fingerprint.value;
      var existing := db.FindByFingerprint(fp);
      if existing.Some? {
        return RegisterDuplicate(fp);
      }
      RegisterKeepsFingerprintsUnique(db.teachers, db.order, newId, name, department, fp);
      db.RegisterTeacher(newId, name, department, fp);
      latestFingerprint := None;
      r := Registered(name, newId);
    }

    /**
     * POST /register-fingerprint (app.py:253-331); `stamp` is the time
     * `get_system_mode` would write as updated_at (database.py:325) and
     * `scanTime` the `get_server_time()` stored with the scan (app.py:323).
     */
    method RegisterFingerprint(req: ScanRequest, stamp: string, scanTime: string) returns (r: FingerprintResponse)
      requires Valid()
      modifies this, db
      ensures Valid()
      ensures r == RegisterFingerprintSpec(ModeOf(old(db.modeDoc)), req, old(db.teachers), old(db.order))
      ensures latestFingerprint == if r.ScanStored? then Some(Scan(r.fingerprintId, scanTime)) else old(latestFingerprint)
      ensures db.teachers == old(db.teachers) && db.order == old(db.order)
      ensures db.modeDoc == ModeDocAfterRead(old(db.modeDoc), stamp)
    {
      var mode := db.GetSystemMode(stamp);
      if mode != RegisterMode {
        return ScanWrongMode(mode);
      }
      if !req.ScanJson? {
        return ScanBodyNotJson;
      }
      match req.fingerprint
      case FpMissing => return ScanMissingFingerprint;
      case FpInvalid => return ScanInvalidFingerprint;
      case FpInt(fp) =>
        var existing := db.FindByFingerprint(fp);
        if existing.Some? {
          return ScanDuplicate(fp);
        }
        latestFingerprint := Some(Scan(fp, scanTime));
        return ScanStored(fp);
    }

    /** GET /register-fingerprint/latest (app.py:353-366). */
    method LatestFingerprint() returns (r: LatestResponse)
      ensures r.Waiting? <==> latestFingerprint.None?
      ensures r.Ready? ==> latestFingerprint == Some(Scan(r.fingerprintId, r.timestamp))
    {
      match latestFingerprint
      case None => return Waiting;
      case Some(scan) => return Ready(scan.fingerprintId, scan.timestamp);
    }

    /** POST /register-fingerprint/clear (app.py:382-389). */
    method ClearLatestFingerprint()
      modifies this
      ensures latestFingerprint == None
    {
      latestFingerprint := None;
    }

    /**
     * POST /attendance (app.py:399-618). The clock is an input: `clock` is
     * the second of the day (formatted as get_time_string does), `date` the
     * date key, `stamp` the time written with a defaulted mode document.
     */
    method Attendance(req: ScanRequest, clock: nat, date: string, stamp: string) returns (r: AttendanceResponse)
      requires Valid() && clock < SecondsPerDay
      modifies db
      ensures Valid()
      ensures (r, db.teachers) == AttendanceSpec(ModeOf(old(db.modeDoc)), req, old(db.teachers), old(db.order),
                                                 FormatClock(clock), date, cooldown)
      ensures db.order == old(db.order)
      ensures db.modeDoc == ModeDocAfterRead(old(db.modeDoc), stamp)
    {
      var now := FormatClock(clock);
      var mode := db.GetSystemMode(stamp);
      if mode != AttendanceMode {
        return AttendanceWrongMode(mode);
      }
      if !req.ScanJson? {
        return AttendanceBodyNotJson;
      }
      if req.fingerprint.FpMissing? {
        return AttendanceMissingFingerprint;
      }
      if req.fingerprint.FpInvalid? {
        return AttendanceInvalidFingerprint;
      }
      var fp := req.fingerprint.value;
      var found := db.FindByFingerprint(fp);
      if found.None? {
        return NotFound(fp);
      }
      var id, teacher := found.value.teacherId, found.value.teacher;
      var today := TodayAttendance(db.teachers, id, date);
      var d := Decide(today, now, cooldown);
      ghost var before := db.teachers;
      r := RecordDecision(id, teacher, today, d, now, date);
      EntryUpdateKeepsFingerprintsUnique(before, db.teachers, id, date);
    }

    /**
     * The write and the response for decision `d` about teacher `id`
     * (app.py:488-618): create_check_in or create_check_out when the
     * decision asks for one, answering with the failure response should
     * the store report False.
     */
    method RecordDecision(id: string, teacher: Teacher, today: Option<DayRecord>, d: Decision, now: string, date: string)
      returns (r: AttendanceResponse)
      requires id in db.teachers && teacher == db.teachers[id] && today == TodayAttendance(db.teachers, id, date)
      modifies db
      ensures r == Respond(d, teacher, today, now)
      ensures db.teachers == if WriteOf(d, now).NoWrite? then old(db.teachers)
        else WithEntry(old(db.teachers), id, date, Apply(today, WriteOf(d, now)).value)
      ensures db.order == old(db.order) && db.modeDoc == old(db.modeDoc)
    {
      match d {
        case CheckIn =>
          var ok := db.CreateCheckIn(id, date, now);
          r := if ok then CheckedInResponse(teacher.name, teacher.department, now)
               else CheckInFailed(teacher.name, teacher.department);
        case CheckOut(wh) =>
          var ok := db.CreateCheckOut(id, date, now, wh);
          r := if ok then CheckedOutResponse(teacher.name, teacher.department, StoredCheckIn(today), now, wh)
               else CheckOutFailed(teacher.name, teacher.department);
        case _ =>
          r := Respond(d, teacher, today, now);
      }
    }

    /**
     * GET /teachers (app.py:636-664): one row per (teacher, date), and one
     * row of Nones for a teacher with no attendance; every row once.
     */
    method GetTeachers() returns (records: seq<Row>)
      requires Valid()
      ensures forall k :: 0 <= k < |records| ==>
        records[k].teacherId in db.teachers && records[k] in RowsOf(records[k].teacherId, db.teachers[records[k].teacherId])
      ensures forall id, row :: id in db.teachers && row in RowsOf(id, db.teachers[id]) ==> row in records
      ensures Distinct(records)
    {
      records := [];
      var i := 0;
      while i < |db.order|
        invariant 0 <= i <= |db.order|
        invariant forall k :: 0 <= k < |records| ==>
          records[k].teacherId in db.order[..i] && records[k] in RowsOf(records[k].teacherId, db.teachers[records[k].teacherId])
        invariant forall j, row :: 0 <= j < i && row in RowsOf(db.order[j], db.teachers[db.order[j]]) ==> row in records
        invariant Distinct(records)
      {
        var id := db.order[i];
        assert id in db.teachers;
        var rows := TeacherRows(id, db.teachers[id]);
        assert forall k :: 0 <= k < |records| ==> records[k].teacherId != id by {
          forall k | 0 <= k < |records| ensures records[k].teacherId != id {
            var j :| 0 <= j < i && db.order[j] == records[k].teacherId;
          }
        }
        records := records + rows;
        i := i + 1;
      }
      forall id, row | id in db.teachers && row in RowsOf(id, db.teachers[id]) ensures row in records {
        var j :| 0 <= j < |db.order| && db.order[j] == id;
      }
    }
  }

  /**
   * The rows of one teacher (the inner loop at app.py:643-664); dates are
   * taken in no particular order.
   */
  method TeacherRows(id: string, t: Teacher) returns (rows: seq<Row>)
    ensures forall k :: 0 <= k < |rows| ==> rows[k] in RowsOf(id, t)
    ensures forall row :: row in RowsOf(id, t) ==> row in rows
    ensures RowsOfTeacher(rows, id) && Distinct(rows)
  {
    if t.attendance == map[] {
      return [Row(id, t.name, t.department, None, None, None, None)];
    }
    rows := [];
    var remaining := t.attendance.Keys;
    while remaining != {}
      invariant remaining <= t.attendance.Keys
      invariant forall k :: 0 <= k < |rows| ==>
        (rows[k].date.Some? && rows[k].date.value in t.attendance.Keys - remaining && rows[k] == DateRow(id, t, rows[k].date.value))
      invariant forall date :: date in t.attendance.Keys - remaining ==> DateRow(id, t, date) in rows
      invariant RowsOfTeacher(rows, id) && Distinct(rows)
      decreases remaining
    {
      var date :| date in remaining;
      rows := rows + [DateRow(id, t, date)];
      remaining := remaining - {date};
    }
  }

  /** Registering a fingerprint no teacher holds keeps fingerprints unique, whatever the new id. */
  lemma RegisterKeepsFingerprintsUnique(teachers: map<string, Teacher>, order: seq<string>, newId: string,
                                        name: string, department: string, fp: int)
    requires UniqueFingerprints(teachers)
    requires FirstMatch(order, teachers, fp).None?
    requires forall x :: x in teachers <==> x in order
    ensures UniqueFingerprints(teachers[newId := Teacher(name, department, fp, map[])])
  {
    forall x | x in teachers ensures teachers[x].fingerprintId != fp {
      var i :| 0 <= i < |order| && order[i] == x;
    }
  }

  /** Changing one date's entry of an existing teacher keeps fingerprints unique. */
  lemma EntryUpdateKeepsFingerprintsUnique(before: map<string, Teacher>, after: map<string, Teacher>, id: string, date: string)
    requires UniqueFingerprints(before)
    requires after == before || (id in before && exists e :: after == WithEntry(before, id, date, e))
    ensures UniqueFingerprints(after)
  {
  }

  /**
   * The mode gate comes before everything else: in the wrong mode each
   * handler answers 403 whatever the request, and changes no teacher.
   */
  lemma ModeGateComesFirst(mode: string, teachers: map<string, Teacher>, order: seq<string>, now: string, date: string,
                           cooldown: int, scan: ScanRequest, reg: RegisterRequest, newId: string)
    ensures mode != AttendanceMode ==> AttendanceSpec(mode, scan, teachers, order, now, date, cooldown) == (AttendanceWrongMode(mode), teachers)
    ensures mode != RegisterMode ==> RegisterSpec(mode, reg, teachers, order, newId) == (RegisterWrongMode(mode), teachers, order)
    ensures mode != RegisterMode ==> RegisterFingerprintSpec(mode, scan, teachers, order) == ScanWrongMode(mode)
    ensures AttendanceSpec(mode, scan, teachers, order, now, date, cooldown).0.Status() == 403 <==> mode != AttendanceMode
  {
  }

  /** A scan that is neither a check-in nor a check-out writes nothing. */
  lemma RejectedScanWritesNothing(mode: string, req: ScanRequest, teachers: map<string, Teacher>, order: seq<string>,
                                  now: string, date: string, cooldown: int)
    ensures var (r, after) := AttendanceSpec(mode, req, teachers, order, now, date, cooldown);
      !r.CheckedInResponse? && !r.CheckedOutResponse? ==> after == teachers
  {
  }

  /**
   * A scan changes at most one teacher (the one holding the fingerprint),
   * and of that teacher only the entry for the scan's date.
   */
  lemma ScanTouchesOneEntry(mode: string, req: ScanRequest, teachers: map<string, Teacher>, order: seq<string>,
                            now: string, date: string, cooldown: int)
    ensures var after := AttendanceSpec(mode, req, teachers, order, now, date, cooldown).1;
      && after.Keys == teachers.Keys
      && (forall x :: x in teachers ==>
            && after[x].name == teachers[x].name && after[x].department == teachers[x].department
            && after[x].fingerprintId == teachers[x].fingerprintId
            && after[x].attendance - {date} == teachers[x].attendance - {date})
      && (forall x :: x in teachers && after[x] != teachers[x] ==>
            req.ScanJson? && req.fingerprint.FpInt? && FirstMatch(order, teachers, req.fingerprint.value) == Some(x))
  {
    var after := AttendanceSpec(mode, req, teachers, order, now, date, cooldown).1;
    if after != teachers {
      var fp := req.fingerprint.value;
      var id := FirstMatch(order, teachers, fp).value;
      var e :| after == WithEntry(teachers, id, date, e);
      assert teachers[id].attendance[date := e] - {date} == teachers[id].attendance - {date};
    }
  }

  /** An unknown fingerprint in attendance mode yields not_found and writes nothing. */
  lemma UnknownFingerprintNotFound(req: ScanRequest, teachers: map<string, Teacher>, order: seq<string>,
                                   now: string, date: string, cooldown: int, fp: int)
    requires req == ScanJson(FpInt(fp))
    requires forall x :: x in teachers ==> teachers[x].fingerprintId != fp
    ensures AttendanceSpec(AttendanceMode, req, teachers, order, now, date, cooldown) == (NotFound(fp), teachers)
  {
  }

  /** Same documents and same fingerprints: the same first match, whatever the attendance maps hold. */
  lemma {:induction false} FirstMatchIgnoresAttendance(order: seq<string>, t1: map<string, Teacher>, t2: map<string, Teacher>, fp: int)
    requires t1.Keys == t2.Keys
    requires forall x :: x in t1 ==> t1[x].fingerprintId == t2[x].fingerprintId
    ensures FirstMatch(order, t1, fp) == FirstMatch(order, t2, fp)
    decreases |order|
  {
    if order != [] {
      FirstMatchIgnoresAttendance(order[1..], t1, t2, fp);
    }
  }

  /** The responses to a series of attendance-mode scans of one fingerprint on one date. */
  function ScanSeries(teachers: map<string, Teacher>, order: seq<string>, fp: int, date: string,
                      nows: seq<string>, cooldown: int): (rs: seq<AttendanceResponse>)
    ensures |rs| == |nows|
    decreases |nows|
  {
    if nows == [] then []
    else
      var (r, after) := AttendanceSpec(AttendanceMode, ScanJson(FpInt(fp)), teachers, order, nows[0], date, cooldown);
      [r] + ScanSeries(after, order, fp, date, nows[1..], cooldown)
  }

  function CountCheckedIn(rs: seq<AttendanceResponse>): nat {
    if rs == [] then 0 else (if rs[0].CheckedInResponse? then 1 else 0) + CountCheckedIn(rs[1..])
  }

  function CountCheckedOut(rs: seq<AttendanceResponse>): nat {
    if rs == [] then 0 else (if rs[0].CheckedOutResponse? then 1 else 0) + CountCheckedOut(rs[1..])
  }

  /**
   * Scans of a registered fingerprint check in and out exactly as often as
   * the decision run over that teacher's entry for the date does.
   */
  lemma {:induction false} ScanSeriesFollowsDecisions(teachers: map<string, Teacher>, order: seq<string>, fp: int,
                                                      date: string, nows: seq<string>, cooldown: int, id: string)
    requires FirstMatch(order, teachers, fp) == Some(id)
    ensures CountCheckedIn(ScanSeries(teachers, order, fp, date, nows, cooldown))
         == CountCheckIns(Run(TodayAttendance(teachers, id, date), nows, cooldown))
    ensures CountCheckedOut(ScanSeries(teachers, order, fp, date, nows, cooldown))
         == CountCheckOuts(Run(TodayAttendance(teachers, id, date), nows, cooldown))
    decreases |nows|
  {
    if nows != [] {
      var today := TodayAttendance(teachers, id, date);
      var d := Decide(today, nows[0], cooldown);
      var (r, after) := AttendanceSpec(AttendanceMode, ScanJson(FpInt(fp)), teachers, order, nows[0], date, cooldown);
      assert r == Respond(d, teachers[id], today, nows[0]);
      FirstMatchIgnoresAttendance(order, teachers, after, fp);
      assert TodayAttendance(after, id, date) == Apply(today, WriteOf(d, nows[0]));
      ScanSeriesFollowsDecisions(after, order, fp, date, nows[1..], cooldown, id);
      var rs := ScanSeries(teachers, order, fp, date, nows, cooldown);
      var ds := Run(today, nows, cooldown);
      assert rs[1..] == ScanSeries(after, order, fp, date, nows[1..], cooldown);
      assert ds[1..] == Run(Apply(today, WriteOf(d, nows[0])), nows[1..], cooldown);
    }
  }

  /** Scans of an unknown fingerprint all answer not_found. */
  lemma {:induction false} UnknownSeries(teachers: map<string, Teacher>, order: seq<string>, fp: int,
                                         date: string, nows: seq<string>, cooldown: int)
    requires FirstMatch(order, teachers, fp).None?
    ensures forall i :: 0 <= i < |nows| ==> ScanSeries(teachers, order, fp, date, nows, cooldown)[i] == NotFound(fp)
    ensures CountCheckedIn(ScanSeries(teachers, order, fp, date, nows, cooldown)) == 0
    ensures CountCheckedOut(ScanSeries(teachers, order, fp, date, nows, cooldown)) == 0
    decreases |nows|
  {
    if nows != [] {
      UnknownSeries(teachers, order, fp, date, nows[1..], cooldown);
    }
  }

  /**
   * At most one check-in and at most one check-out per (teacher, date):
   * however many times, and at whatever times of day, a fingerprint is
   * scanned on one date, at most one scan answers check_in and at most one
   * answers check_out.
   */
  lemma AtMostOneCheckInAndOutPerDate(teachers: map<string, Teacher>, order: seq<string>, fp: int,
                                      date: string, nows: seq<string>, cooldown: int)
    ensures CountCheckedIn(ScanSeries(teachers, order, fp, date, nows, cooldown)) <= 1
    ensures CountCheckedOut(ScanSeries(teachers, order, fp, date, nows, cooldown)) <= 1
  {
    match FirstMatch(order, teachers, fp)
    case None =>
      UnknownSeries(teachers, order, fp, date, nows, cooldown);
    case Some(id) =>
      ScanSeriesFollowsDecisions(teachers, order, fp, date, nows, cooldown, id);
      AtMostOncePerDay(TodayAttendance(teachers, id, date), nows, cooldown);
  }

  /**
   * Registration in register mode with a fingerprint already bound answers
   * 400 and writes nothing, whatever name and department are sent.
   */
  lemma DuplicateRegistrationWritesNothing(req: RegisterRequest, teachers: map<string, Teacher>, order: seq<string>,
                                           newId: string, fp: int)
    requires req.fingerprint == FpInt(fp) && Strip(req.name) != "" && Strip(req.department) != ""
    requires exists x :: x in teachers && teachers[x].fingerprintId == fp
    requires forall x :: x in teachers ==> x in order
    ensures RegisterSpec(RegisterMode, req, teachers, order, newId) == (RegisterDuplicate(fp), teachers, order)
    ensures RegisterSpec(RegisterMode, req, teachers, order, newId).0.Status() == 400
  {
    var x :| x in teachers && teachers[x].fingerprintId == fp;
    var i :| 0 <= i < |order| && order[i] == x;
  }

  /**
   * Registration in register mode with a name or department that is blank
   * after stripping, or no fingerprint, answers 400 and writes nothing
   * (a form fingerprint that `int()` cannot read answers 500 first).
   */
  lemma MissingFieldsWriteNothing(req: RegisterRequest, teachers: map<string, Teacher>, order: seq<string>, newId: string)
    requires (forall i :: 0 <= i < |req.name| ==> IsSpace(req.name[i])) || Strip(req.department) == "" || req.fingerprint.FpMissing?
    ensures var (r, after, order') := RegisterSpec(RegisterMode, req, teachers, order, newId);
      && after == teachers && order' == order
      && (r == RegisterMissingFields || (r == RegisterUnreadable && !req.isJson && req.fingerprint.FpInvalid?))
  {
    StripBlank(req.name);
  }

  /**
   * A successful registration stores exactly the stripped name and
   * department, the fingerprint and an empty attendance map under the new
   * id, changes no other teacher, and keeps fingerprints unique.
   */
  lemma RegistrationStoresNewTeacher(req: RegisterRequest, mode: string, teachers: map<string, Teacher>, order: seq<string>, newId: string)
    requires UniqueFingerprints(teachers)
    requires forall x :: x in teachers <==> x in order
    ensures var result := RegisterSpec(mode, req, teachers, order, newId);
      result.0.Registered? ==>
        && mode == RegisterMode && req.fingerprint.FpInt?
        && result.1 == teachers[newId := Teacher(Strip(req.name), Strip(req.department), req.fingerprint.value, map[])]
        && Strip(req.name) != "" && Strip(req.department) != ""
        && (forall x :: x in teachers ==> teachers[x].fingerprintId != req.fingerprint.value)
        && UniqueFingerprints(result.1)
  {
    var result := RegisterSpec(mode, req, teachers, order, newId);
    if result.0.Registered? {
      assert mode == RegisterMode && req.fingerprint.FpInt?;
      var fp := req.fingerprint.value;
      assert FirstMatch(order, teachers, fp).None?;
      forall x | x in teachers ensures teachers[x].fingerprintId != fp {
        var i :| 0 <= i < |order| && order[i] == x;
      }
      RegisterKeepsFingerprintsUnique(teachers, order, newId, Strip(req.name), Strip(req.department), fp);
    }
  }

  /**
   * The pending slot is written only after every check has passed: the
   * register mode, a JSON body, a readable fingerprint that no teacher
   * holds.
   */
  lemma SlotWrittenOnlyAfterChecks(mode: string, req: ScanRequest, teachers: map<string, Teacher>, order: seq<string>, fp: int)
    requires forall x :: x in teachers <==> x in order
    ensures RegisterFingerprintSpec(mode, req, teachers, order) == ScanStored(fp) <==>
      && mode == RegisterMode && req == ScanJson(FpInt(fp))
      && (forall x :: x in teachers ==> teachers[x].fingerprintId != fp)
  {
    if mode == RegisterMode && req == ScanJson(FpInt(fp)) && FirstMatch(order, teachers, fp).None? {
      forall x | x in teachers ensures teachers[x].fingerprintId != fp {
        var i :| 0 <= i < |order| && order[i] == x;
      }
    }
  }
}
