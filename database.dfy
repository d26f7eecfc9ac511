/**
 * The document store of database.py, as state: the `teachers` collection
 * (document id -> teacher document), the order in which a query streams
 * those documents, and the `system/mode` document. The Firestore client and
 * its errors are not part of this model.
 */
module Database {
  import opened Wrappers
  import opened Records
  import opened Text

  const RegisterMode: string := "register"
  const AttendanceMode: string := "attendance"

  /** `mode in ['register', 'attendance']` (database.py:318, app.py:116). */
  predicate IsMode(mode: string) {
    mode == RegisterMode || mode == AttendanceMode
  }

  /** The `system/mode` document: its `mode` field (which may be missing) and `updated_at`. */
  datatype ModeDoc = ModeDoc(mode: Option<string>, updatedAt: string)

  /**
   * What `get_system_mode` answers for a stored mode document: the stored
   * mode, or "attendance" when the document or its `mode` field is missing
   * (database.py:295-301).
   */
  function ModeOf(doc: Option<ModeDoc>): (mode: string)
    ensures doc.None? ==> mode == AttendanceMode
    ensures doc.Some? && doc.value.mode.Some? ==> mode == doc.value.mode.value
    ensures doc.Some? && doc.value.mode.None? ==> mode == AttendanceMode
  {
    if doc.Some? then doc.value.mode.GetOr(AttendanceMode) else AttendanceMode
  }

  /** A found teacher: the document's fields with `teacher_id` set to the document id (database.py:104-108). */
  datatype TeacherView = TeacherView(teacherId: string, teacher: Teacher)

  /** No two teacher documents share a fingerprint id. */
  predicate UniqueFingerprints(teachers: map<string, Teacher>) {
    forall a, b :: a in teachers && b in teachers && a != b ==> teachers[a].fingerprintId != teachers[b].fingerprintId
  }

  /**
   * The first document, in stream order, whose fingerprint_id equals `fp`:
   * what `where('fingerprint_id', '==', fp).limit(1)` yields.
   */
  function FirstMatch(order: seq<string>, teachers: map<string, Teacher>, fp: int): (r: Option<string>)
    ensures r.Some? ==> r.value in order && r.value in teachers && teachers[r.value].fingerprintId == fp
    ensures r.None? <==> forall i :: 0 <= i < |order| && order[i] in teachers ==> teachers[order[i]].fingerprintId != fp
  {
    if order == [] then None
    else if order[0] in teachers && teachers[order[0]].fingerprintId == fp then Some(order[0])
    else
      assert forall i :: 1 <= i < |order| ==> order[i] == order[1..][i - 1];
      FirstMatch(order[1..], teachers, fp)
  }

  /** No document streamed before the first match holds the fingerprint. */
  lemma {:induction false} FirstMatchIsFirst(order: seq<string>, teachers: map<string, Teacher>, fp: int, k: nat)
    requires k < |order| && FirstMatch(order, teachers, fp) == Some(order[k])
    requires forall i, j :: 0 <= i < j < |order| ==> order[i] != order[j]
    ensures forall j :: 0 <= j < k && order[j] in teachers ==> teachers[order[j]].fingerprintId != fp
  {
    if k > 0 {
      assert order[0] != order[k];
      assert FirstMatch(order[1..], teachers, fp) == Some(order[1..][k - 1]);
      FirstMatchIsFirst(order[1..], teachers, fp, k - 1);
      forall j | 1 <= j < k ensures order[j] == order[1..][j - 1] { }
    }
  }

  /**
   * With unique fingerprints the stream order does not matter: the first
   * match is the one teacher holding the fingerprint.
   */
  lemma FirstMatchIsTheMatch(order: seq<string>, teachers: map<string, Teacher>, id: string)
    requires UniqueFingerprints(teachers)
    requires forall x :: x in teachers <==> x in order
    requires id in teachers
    ensures FirstMatch(order, teachers, teachers[id].fingerprintId) == Some(id)
  {
    var fp := teachers[id].fingerprintId;
    var i :| 0 <= i < |order| && order[i] == id;
    assert order[i] in teachers && teachers[order[i]].fingerprintId == fp;
  }

  /** `get_today_attendance` (database.py:159-166): the date's entry, or None when the teacher or the date is missing. */
  function TodayAttendance(teachers: map<string, Teacher>, id: string, date: string): (r: Option<DayRecord>)
    ensures r.Some? <==> id in teachers && date in teachers[id].attendance
    ensures r.Some? ==> r.value == teachers[id].attendance[date]
  {
    if id in teachers && date in teachers[id].attendance then Some(teachers[id].attendance[date]) else None
  }

  /** A pending-registration document as `get_latest_pending_registration` sees it (absent created_at reads as ""). */
  datatype PendingDoc = PendingDoc(pendingId: string, name: string, department: string, createdAt: string, status: string)

  const Pending: string := "pending"

  predicate IsPending(doc: PendingDoc) {
    doc.status == Pending
  }

  /** Every pending document carries a non-empty created_at. */
  predicate PendingTimesSet(docs: seq<PendingDoc>) {
    forall i :: 0 <= i < |docs| && IsPending(docs[i]) ==> docs[i].createdAt != ""
  }

  /**
   * `get_latest_pending_registration` (database.py:424-441) over the
   * collection in stream order: None when no document is pending;
   * otherwise a pending document, and when every pending document has a
   * created_at it is one with the greatest created_at (compared as
   * strings), the first such on ties.
   */
  method LatestPendingRegistration(docs: seq<PendingDoc>) returns (latest: Option<PendingDoc>)
    ensures latest.None? <==> forall i :: 0 <= i < |docs| ==> !IsPending(docs[i])
    ensures latest.Some? ==>
      exists k :: (
        && 0 <= k < |docs| && docs[k] == latest.value && IsPending(docs[k])
        && (PendingTimesSet(docs) ==> forall j :: 0 <= j < k && IsPending(docs[j]) ==> LexLess(docs[j].createdAt, docs[k].createdAt)))
    ensures latest.Some? && PendingTimesSet(docs) ==>
      forall i :: 0 <= i < |docs| && IsPending(docs[i]) ==> !LexLess(latest.value.createdAt, docs[i].createdAt)
  {
    latest := None;
    var latestTime := "";
    ghost var k := 0;
    var i := 0;
    while i < |docs|
      invariant 0 <= i <= |docs|
      invariant latest.None? <==> forall j :: 0 <= j < i ==> !IsPending(docs[j])
      invariant latest.Some? ==> 0 <= k < i && docs[k] == latest.value && IsPending(docs[k]) && latestTime == docs[k].createdAt
      invariant latest.Some? && PendingTimesSet(docs) ==>
        && (forall j :: 0 <= j < i && IsPending(docs[j]) ==> !LexLess(latestTime, docs[j].createdAt))
        && (forall j :: 0 <= j < k && IsPending(docs[j]) ==> LexLess(docs[j].createdAt, latestTime))
    {
      var doc := docs[i];
      if IsPending(doc) {
        var createdAt := doc.createdAt;
        if latest.None? || (if latestTime != "" then LexLess(latestTime, createdAt) else true) {
          if latest.Some? && PendingTimesSet(docs) {
            forall j | 0 <= j < i && IsPending(docs[j])
              ensures LexLess(docs[j].createdAt, createdAt) && !LexLess(createdAt, docs[j].createdAt)
            {
              if docs[j].createdAt != latestTime {
                LexLessTotal(docs[j].createdAt, latestTime);
                LexLessTransitive(docs[j].createdAt, latestTime, createdAt);
              }
              LexLessAsymmetric(docs[j].createdAt, createdAt);
            }
          }
          LexLessIrreflexive(createdAt);
          latest := Some(doc);
          latestTime := createdAt;
          k := i;
        }
      }
      i := i + 1;
    }
  }

  /**
   * The store. `order` is the order in which queries stream the teacher
   * documents; `Valid` says it lists every document id exactly once.
   */
  /** The teachers map with one date's entry of teacher `id` replaced. */
  function WithEntry(teachers: map<string, Teacher>, id: string, date: string, entry: DayRecord): (r: map<string, Teacher>)
    requires id in teachers
    ensures r.Keys == teachers.Keys
    ensures forall other :: other in teachers && other != id ==> r[other] == teachers[other]
    ensures r[id].name == teachers[id].name && r[id].department == teachers[id].department
    ensures r[id].fingerprintId == teachers[id].fingerprintId
    ensures r[id].attendance.Keys == teachers[id].attendance.Keys + {date}
    ensures forall d :: d in teachers[id].attendance && d != date ==> r[id].attendance[d] == teachers[id].attendance[d]
    ensures TodayAttendance(r, id, date) == Some(entry)
  {
    teachers[id := teachers[id].(attendance := teachers[id].attendance[date := entry])]
  }

  /** The mode document after a `get_system_mode()` call stamped `stamp`. */
  function ModeDocAfterRead(doc: Option<ModeDoc>, stamp: string): (r: Option<ModeDoc>)
    ensures r.Some? && ModeOf(r) == ModeOf(doc)
    ensures doc.Some? ==> r == doc
  {
    if doc.None? then Some(ModeDoc(Some(AttendanceMode), stamp)) else doc
  }

  class Store {
    var teachers: map<string, Teacher>
    var order: seq<string>
    var modeDoc: Option<ModeDoc>

    ghost predicate Valid()
      reads this
    {
      && (forall i, j :: 0 <= i < j < |order| ==> order[i] != order[j])
      && (forall id :: id in teachers <==> id in order)
    }

    /**
     * The store holding the documents already in Firestore: `teachers0`
     * keyed by document id, streamed in the order `order0`, and the mode
     * document if there is one.
     */
    constructor (teachers0: map<string, Teacher>, order0: seq<string>, modeDoc0: Option<ModeDoc>)
      requires forall i, j :: 0 <= i < j < |order0| ==> order0[i] != order0[j]
      requires forall id :: id in teachers0 <==> id in order0
      ensures Valid()
      ensures teachers == teachers0 && order == order0 && modeDoc == modeDoc0
    {
      teachers := teachers0;
      order := order0;
      modeDoc := modeDoc0;
    }

    /**
     * `register_teacher` (database.py:67-79): `set` the document `id` to
     * exactly name, department, fingerprint_id and an empty attendance
     * map, replacing any document already there.
     */
    method RegisterTeacher(id: string, name: string, department: string, fingerprintId: int)
      requires Valid()
      modifies this
      ensures Valid()
      ensures teachers == old(teachers)[id := Teacher(name, department, fingerprintId, map[])]
      ensures order == if id in old(teachers) then old(order) else old(order) + [id]
      ensures modeDoc == old(modeDoc)
    {
      if id !in teachers {
        order := order + [id];
      }
      teachers := teachers[id := Teacher(name, department, fingerprintId, map[])];
    }

    /**
     * `get_teacher_by_fingerprint_id` (database.py:95-110): the first
     * document in stream order with that fingerprint_id, with its id.
     */
    method FindByFingerprint(fp: int) returns (r: Option<TeacherView>)
      requires Valid()
      ensures r.None? <==> FirstMatch(order, teachers, fp).None?
      ensures r.Some? ==> (FirstMatch(order, teachers, fp) == Some(r.value.teacherId)
        && r.value.teacherId in teachers && r.value.teacher == teachers[r.value.teacherId])
    {
      var i := 0;
      while i < |order|
        invariant 0 <= i <= |order|
        invariant FirstMatch(order[i..], teachers, fp) == FirstMatch(order, teachers, fp)
      {
        var id := order[i];
        if id in teachers && teachers[id].fingerprintId == fp {
          return Some(TeacherView(id, teachers[id]));
        }
        assert order[i..][1..] == order[i + 1..];
        i := i + 1;
      }
      return None;
    }

    /**
     * `create_check_in` (database.py:184-206): False and no change when the
     * teacher document is missing; otherwise the date's entry becomes
     * exactly `{check_in: time}` and nothing else changes.
     */
    method CreateCheckIn(id: string, date: string, time: string) returns (ok: bool)
      modifies this
      ensures ok <==> id in old(teachers)
      ensures teachers == if ok
        then WithEntry(old(teachers), id, date, CheckedIn(time))
        else old(teachers)
      ensures order == old(order) && modeDoc == old(modeDoc)
    {
      if id !in teachers {
        return false;
      }
      var teacher := teachers[id];
      var attendance := teacher.attendance;
      attendance := attendance[date := CheckedIn(time)];
      teachers := teachers[id := teacher.(attendance := attendance)];
      return true;
    }

    /**
     * `create_check_out` (database.py:225-251): False and no change when the
     * teacher document is missing; otherwise the date's entry (created
     * empty if missing) gets check_out and working_hours, keeping its
     * check_in, and nothing else changes.
     */
    method CreateCheckOut(id: string, date: string, time: string, workingHours: string) returns (ok: bool)
      modifies this
      ensures ok <==> id in old(teachers)
      ensures teachers == if ok
        then WithEntry(old(teachers), id, date, CheckedOut(TodayAttendance(old(teachers), id, date), time, workingHours))
        else old(teachers)
      ensures order == old(order) && modeDoc == old(modeDoc)
    {
      if id !in teachers {
        return false;
      }
      var teacher := teachers[id];
      var attendance := teacher.attendance;
      var entry := if date in attendance then attendance[date] else DayRecord(None, None, None);
      entry := entry.(checkOut := Some(time), workingHours := Some(workingHours));
      attendance := attendance[date := entry];
      teachers := teachers[id := teacher.(attendance := attendance)];
      return true;
    }

    /**
     * `set_system_mode` (database.py:317-327): False with no write for a
     * mode other than "register" and "attendance"; otherwise the mode
     * document becomes `{mode, updated_at: stamp}`.
     */
    method SetSystemMode(mode: string, stamp: string) returns (ok: bool)
      modifies this
      ensures ok <==> IsMode(mode)
      ensures modeDoc == if ok then Some(ModeDoc(Some(mode), stamp)) else old(modeDoc)
      ensures teachers == old(teachers) && order == old(order)
    {
      if !IsMode(mode) {
        return false;
      }
      modeDoc := Some(ModeDoc(Some(mode), stamp));
      return true;
    }

    /**
     * `get_system_mode` (database.py:290-301): the stored mode, or
     * "attendance"; when there is no mode document yet it first stores
     * "attendance" (stamped `stamp`).
     */
    method GetSystemMode(stamp: string) returns (mode: string)
      modifies this
      ensures mode == ModeOf(old(modeDoc))
      ensures modeDoc == ModeDocAfterRead(old(modeDoc), stamp)
      ensures teachers == old(teachers) && order == old(order)
    {
      if modeDoc.Some? {
        mode := modeDoc.value.mode.GetOr(AttendanceMode);
      } else {
        var _ := SetSystemMode(AttendanceMode, stamp);
        mode := AttendanceMode;
      }
    }
  }
}
