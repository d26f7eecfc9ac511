# Fingerprint attendance server: a Dafny model

This project models the server of a fingerprint attendance system for teachers.
A fingerprint reader posts the fingerprint id it matched. The server keeps a
Firestore-backed map of teacher documents. Each document has a name, a department,
a `fingerprint_id` and an `attendance` map keyed by date. The model covers the
following.

- **Teacher store (`database.py`).** `Database.Store` is a class over that map.
  - It also holds the order in which queries stream the documents and the
    `system/mode` document.
  - Its methods are register, find by fingerprint, check-in write, check-out
    merge, and get/set mode (the getter persists the "attendance" default).
  - The same module has the max-by-`created_at` scan over pending registrations.
- **The daily state machine of `POST /attendance` (`app.py`).**
  - No entry for today (or an empty one): check in.
  - Checked in but not out, fewer than COOLDOWN_MINUTES whole minutes since check-in: a cooldown answer.
  - Checked in, at least COOLDOWN_MINUTES minutes passed (equality included): check out.
    The working hours come from `calculate_working_hours`.
  - Both set: completed.
  - Anything else: an invalid state.
  - Elapsed time wraps across midnight and is truncated to whole minutes.
- **The handlers as a class.** `Server.App` holds the store, COOLDOWN_MINUTES and
  the single-slot `_latest_fingerprint_id` hand-off.
  - Each handler method is proved equal to a function of the old state.
  - The lemmas in `server.dfy` are stated over those functions: mode gate first,
    rejected scans write nothing, one entry touched per scan, and at most one
    check-in and one check-out per teacher and date.
- **The `/teachers` row flattening.**

Layout:

- `wrappers.dfy`: Option.
- `text.dfy`: decimal rendering, `str.strip`, `str.lower` and string ordering.
- `clock.dfy`: `"%H:%M:%S"` parsing/formatting and elapsed seconds with the midnight wrap.
- `working_hours.dfy`: `calculate_working_hours` and its inverse.
- `records.dfy`: the per-date record and the teacher document.
- `decision.dfy`: the decision branches and runs of scans.
- `database.dfy`: the store.
- `server.dfy`: the handlers.

The wall clock is an input. The current time of day is a second count; the date is a string.

An unknown fingerprint answers `not_found` only in attendance mode. In any other
mode the 403 at app.py:426-433 answers before any lookup. So
`Server.ModeGateComesFirst` holds for every request, and
`Server.UnknownFingerprintNotFound` is stated for attendance mode only.

A form-encoded registration whose fingerprint_id `int()` rejects answers 500:
app.py:192 converts it outside the inner `try`, and the outer handler at
app.py:245-250 catches the error. The 400 check at app.py:201-208 is reached
only for JSON bodies. test_backend.py:92-108 expects 400 for that request. The
model follows app.py (`Server.MissingFieldsWriteNothing`).

## Model

| member | source | states |
|---|---|---|
| Text.NatToString | app.py:49 | `str(n)` renders a non-empty run of decimal digits with no leading zero, one digit exactly when n < 10 |
| Text.NatToStringValue | app.py:49 | reading the rendered digits back gives n again |
| Text.DigitRunOfPrefix | app.py:49 | the leading digit run of a rendered number followed by a non-digit is exactly the rendered number |
| Text.Strip | app.py:185-191 | `strip()` is never longer than its input, and a non-empty result neither starts nor ends with whitespace |
| Text.StripSpec | app.py:185-191 | `strip()` returns a contiguous slice, and only whitespace is cut from each end |
| Text.StripBlank | app.py:195 | `strip()` gives the empty (falsy) string exactly when the input is all whitespace |
| Text.Lower | app.py:114 | `lower()` keeps the length and lowers each character |
| Text.LexLess | database.py:434 | Python string `<` puts a proper prefix below the longer string |
| Text.LexLessIrreflexive | database.py:434 | Python string `<` is irreflexive |
| Text.LexLessTransitive | database.py:434 | Python string `<` is transitive |
| Text.LexLessTotal | database.py:434 | of two different strings one is less than the other |
| Text.LexLessAsymmetric | database.py:434 | string `<` never holds both ways |
| Clock.TakeField | app.py:31 | a `%H`/`%M`/`%S` field reads one or two digits, greedily, and fails only when no digit comes first |
| Clock.ParseClock | app.py:31-32 | an accepted `"%H:%M:%S"` time is a second of the day (below 86400) |
| Clock.TwoDigits | app.py:67 | a zero-padded field is two digits with the field's value |
| Clock.FormatClock | app.py:65-67 | `strftime("%H:%M:%S")` yields eight characters with colons at positions 2 and 5 |
| Clock.FormatClockRoundTrip | app.py:65-67 | parsing a formatted time of day gives the same second back |
| Clock.ReadsAs | app.py:31-32 | a zero-padded `HH:MM:SS` with hours < 24 and minutes, seconds < 60 parses to h*3600+m*60+s |
| Clock.ParseClockAccepts | app.py:31-32 | "09:00:00" reads as 32400 and "9:5:3" (one-digit fields) as 32703 |
| Clock.ParseClockRejects | app.py:31-32 | hour 24, second 60, a three-digit field and the empty string are rejected |
| Clock.Elapsed | app.py:39-43 | elapsed seconds from one time of day to the next, adding a day when the second is earlier: below a day and landing on `to` modulo a day |
| Clock.ElapsedUnique | app.py:39-43 | that is the only such number of seconds |
| WorkingHours.DurationRoundTrip | app.py:49 | the "H hours M minutes" text reads back to (H, M) |
| WorkingHours.WorkingHoursMeaning | app.py:39-49 | for readable times the result reads as (H, M) with H < 24, M < 60 and H*60+M the whole minutes elapsed, across midnight if need be |
| WorkingHours.WorkingHoursOfEqualTimes | app.py:39-49 | equal times give "0 hours 0 minutes" |
| Records.CheckedIn | database.py:196-199 | the check-in entry is exactly {check_in: time}; with a non-empty time it is a non-empty, open (not completed) entry |
| WorkingHours.CalculateWorkingHours | app.py:50-52 | a time that does not read gives "0 hours 0 minutes", whatever the other is |
| Records.CheckedOut | database.py:238-243 | a check-out sets check_out and working_hours on the date's entry (created empty if missing) and keeps its check_in |
| Decision.Decide | app.py:488-618 | check-in exactly when today's entry is missing or empty; completed exactly when both times are set; a cooldown's remaining minutes lie in 1..COOLDOWN_MINUTES; a check-out only when the current time is readable |
| Decision.MinutesPassed | app.py:531-536 | the whole minutes elapsed: m*60 <= elapsed seconds < m*60+60, and below 1440 |
| Decision.WriteOf | app.py:488-584 | only a check-in or a check-out writes, the write carries the current time, and a check-out writes the decided working hours |
| Decision.Apply | database.py:196-243 | the entry after the write: unchanged without a write, exactly {check_in} after a check-in, check_out and working_hours set with check_in kept after a check-out |
| Decision.NoRecordChecksIn | app.py:488-501 | with no or an empty entry the outcome is check-in and the entry becomes exactly {check_in: now} |
| Decision.CooldownCase | app.py:531-552 | checked in but not out, fewer whole minutes than COOLDOWN_MINUTES: cooldown with remaining = COOLDOWN_MINUTES - minutes, between 1 and COOLDOWN_MINUTES, and no write |
| Decision.CheckOutCase | app.py:531-573 | checked in but not out, at least COOLDOWN_MINUTES whole minutes (equality included): check-out with `calculate_working_hours(check_in, now)`, written via the check-out merge |
| Decision.CompletedIsTerminal | app.py:595-605 | both times set: completed, and the entry is unchanged |
| Decision.MissingCheckInIsInvalid | app.py:608-618 | a non-empty entry without check_in: invalid state, no write |
| Decision.NoSecondCheckIn | app.py:488-501 | once an entry has a check-in, no later scan checks in again |
| Decision.CompletedStaysCompleted | app.py:595-605 | every scan of a completed day answers completed, and none checks out |
| Decision.AtMostOneCheckOut | app.py:519-573 | any run of scans checks out at most once |
| Decision.AtMostOncePerDay | app.py:488-618 | from any entry, any run of scans checks in at most once and checks out at most once |
| Decision.CooldownBoundary | app.py:536-554 | the boundary is inclusive: a scan exactly COOLDOWN_MINUTES after check-in checks out, one a second earlier waits one more minute |
| Decision.MidnightCheckOut | app.py:531-536 | a scan earlier in the day than the check-in counts from the next day: the minutes passed and the working hours are (now + 86400 - check_in) / 60 |
| Database.ModeOf | database.py:295-301 | the stored mode, or "attendance" when the document or its field is missing |
| Database.FirstMatch | database.py:99-110 | the found id is streamed, stored and holds the fingerprint; none is found exactly when no document holds it |
| Database.FirstMatchIsFirst | database.py:99-110 | no document streamed before the match holds the fingerprint |
| Database.FirstMatchIsTheMatch | database.py:99-110 | with unique fingerprints the match is the one holder, whatever the stream order |
| Database.TodayAttendance | database.py:159-166 | the date's entry when the teacher and the date exist, None otherwise |
| Database.WithEntry | database.py:196-204 | one date's entry of one teacher is replaced: the same ids, the other teachers, the teacher's name, department, fingerprint and other dates unchanged |
| Database.ModeDocAfterRead | database.py:295-301 | after a mode read there is a mode document naming the same mode as before; an existing document is left as it is |
| Database.LatestPendingRegistration | database.py:424-441 | None exactly when nothing is pending; else a pending record; when every pending created_at is non-empty, its created_at is not below any pending one and every earlier pending record is strictly below it (first seen wins ties) |
| Database.Store.constructor | database.py:264-273 | the store holds the given teacher documents, streamed in the given order, and the given mode document |
| Database.Store.RegisterTeacher | database.py:67-78 | stores exactly name, department, fingerprint_id and an empty attendance map under the id; nothing else changes |
| Database.Store.FindByFingerprint | database.py:95-110 | returns the first streamed document with that fingerprint, with its id, or None when there is none |
| Database.Store.CreateCheckIn | database.py:183-206 | False and no change for an unknown teacher; else the date's entry becomes exactly {check_in: time}, other dates and fields untouched |
| Database.Store.CreateCheckOut | database.py:223-251 | False and no change for an unknown teacher; else check_out and working_hours are merged into the date's entry (created if missing), check_in kept |
| Database.Store.SetSystemMode | database.py:316-333 | succeeds exactly for "register" or "attendance", writing the mode and its stamp; otherwise writes nothing |
| Database.Store.GetSystemMode | database.py:290-304 | returns the stored mode or "attendance"; a missing document is created as "attendance" |
| Server.SetModeSpec | app.py:105-137 | the mode is set exactly when the body is JSON and the lower-cased mode is "register" or "attendance" |
| Server.RegisterSpec | app.py:172-250 | 403 exactly outside register mode; the store is unchanged unless the teacher is registered; a registration stores under the new id the request's fingerprint and a non-blank name and department |
| Server.RegisterFingerprintSpec | app.py:269-331 | 403 exactly outside register mode; a scan is stored only for a JSON fingerprint in register mode that no teacher holds, and answered as a duplicate only when one does |
| Server.Respond | app.py:488-618 | 200 exactly for a check-in or check-out, 500 exactly for an invalid state or an unreadable time, never 403 or 404; cooldown and check-out answers carry the decided minutes and working hours |
| Server.AttendanceSpec | app.py:419-618 | 403 exactly outside attendance mode; the set of teacher ids never changes; the teachers change only on a check-in or a check-out; not_found only when no teacher holds the fingerprint |
| Server.App.constructor | app.py:13-15 | the app over the stored documents, which share no fingerprint id, with an empty fingerprint slot |
| Server.App.SetMode | app.py:99-137 | answers as SetModeSpec and writes the mode document only on success |
| Server.App.Register | app.py:172-243 | answers and updates the store as RegisterSpec, keeps fingerprints unique, and clears the slot exactly on success |
| Server.App.RegisterFingerprint | app.py:269-331 | answers as RegisterFingerprintSpec; the slot is overwritten (last write wins) with the scan time exactly when the scan is stored |
| Server.App.LatestFingerprint | app.py:353-366 | "waiting" exactly when the slot is empty, else the slot's fingerprint and timestamp |
| Server.App.ClearLatestFingerprint | app.py:382-389 | empties the slot |
| Server.App.Attendance | app.py:419-618 | answers and updates the teachers as AttendanceSpec at the formatted current time, keeping fingerprints unique |
| Server.App.RecordDecision | app.py:488-578 | performs the decision's store write and answers for it |
| Server.App.GetTeachers | app.py:636-664 | every row belongs to a stored teacher: one per date, or one row of Nones when the teacher has no attendance; every such row appears once |
| Server.TeacherRows | app.py:643-664 | one teacher's rows: exactly the rows for that teacher, without repeats |
| Server.RegisterKeepsFingerprintsUnique | app.py:210-227 | registering a fingerprint no teacher holds keeps fingerprints unique |
| Server.EntryUpdateKeepsFingerprintsUnique | app.py:488-578 | attendance writes keep fingerprints unique |
| Server.ModeGateComesFirst | app.py:426-433 | attendance outside "attendance" mode, and registration or fingerprint scans outside "register" mode, answer 403 and write nothing, whatever the request |
| Server.RejectedScanWritesNothing | app.py:419-618 | every scan that neither checks in nor checks out leaves the teachers unchanged |
| Server.ScanTouchesOneEntry | app.py:462-578 | a scan changes only the teacher holding the fingerprint, and of that teacher only the entry for the scan's date |
| Server.UnknownFingerprintNotFound | app.py:463-473 | in attendance mode an unknown fingerprint answers not_found and writes nothing |
| Server.FirstMatchIgnoresAttendance | app.py:464 | attendance writes never change which teacher a fingerprint finds |
| Server.ScanSeriesFollowsDecisions | app.py:463-618 | repeated scans of a registered fingerprint on one date check in and out exactly as the decision run over that teacher's entry does |
| Server.UnknownSeries | app.py:463-473 | repeated scans of an unknown fingerprint all answer not_found |
| Server.AtMostOneCheckInAndOutPerDate | app.py:480-618 | however often and whenever a fingerprint is scanned on one date, at most one scan checks in and at most one checks out |
| Server.DuplicateRegistrationWritesNothing | app.py:210-216 | registering a fingerprint already bound answers 400 and writes nothing, whatever the name and department |
| Server.MissingFieldsWriteNothing | app.py:182-199 | a blank name or department, or no fingerprint, answers 400 (or 500 for an unreadable form fingerprint) and writes nothing |
| Server.RegistrationStoresNewTeacher | app.py:210-236 | a successful registration stores exactly the stripped name and department, the fingerprint and an empty attendance map, and keeps fingerprints unique |
| Server.SlotWrittenOnlyAfterChecks | app.py:273-324 | the slot is written exactly when the mode is register, the body is JSON with a readable fingerprint, and no teacher holds it |

## Left out

- Flask routing, `jsonify`, `render_template`, the GET form of `/register`, `/`, `/health` and `GET /mode` (a pass-through of the mode read). Requests are typed inputs and responses are data with their status codes.
- The wall clock (`get_server_time`, `get_date_string`, `get_time_string`). The date, the time of day and the ISO stamps are parameters. Date and time are independent, so the midnight branch is reachable.
- Float arithmetic in `int(total_seconds() / 60)`. It is modelled as integer division of whole seconds, which is exact for seconds of a day.
- Firestore plumbing and credentials (`initialize_firebase`, `get_db`, the `_initialized` flag). The store is a map.
- Firestore stream order: it is an explicit sequence of document ids, in insertion order. Firestore's real order is not modelled; with unique fingerprints the found teacher does not depend on it (`Database.FirstMatchIsTheMatch`).
- Storage failures: every `except` branch that swallows an error and returns False, None, `{}` or "attendance", and the 500 answers for a failed write. The map store never fails.
  - The read-modify-write races of `create_check_in`/`create_check_out` are concurrency and are also left out.
  - So is the overwrite of a completed day after a swallowed read error.
- Concurrent registrations: the duplicate check and the write (app.py:210-227) are separate steps, so two requests at once can store the same fingerprint twice. Requests are modelled one at a time. `Server.App` starts from stored documents that share no fingerprint id, and each handler keeps that.
- Generation of `teacher_id`: it is an opaque fresh key passed in. If it collides with an existing id, the document is overwritten as `set()` does.
- Pending-registration document ids and `save_pending_registration`, `get_pending_registration` and `delete_pending_registration`: key-value plumbing outside the attendance flow. `get_teacher_by_id` and `get_all_teachers`: plain reads, represented by the store's map and order.
- JSON values of other types than the handlers expect (a non-string name or mode, a non-dict entry). The fingerprint field is abstracted to missing, an integer, or a value `int()` rejects. Python's conversion rules are not modelled.
- Clock.ParseClock: accepts ASCII digits only, while `strptime` also accepts other Unicode decimal digits.
- Text.Lower: lowers ASCII letters only. No other character lowers to a letter of "register" or "attendance", so the mode check decides as Python does.
- Server.App.GetTeachers: the order of dates within a teacher is left open (a set is walked). The rows are specified as a set, not as a sequence in Python's dict order.
- config.py loading: COOLDOWN_MINUTES is a parameter of `Server.App`.
- check_setup.py, run_tests.py and test_backend.py: HTTP and subprocess scripts. Their message texts are not modelled.
