/**
 * The redemption state machine of `attendance_form` (qr_app/views.py): a
 * submission against a session is either refused (unknown session, expired
 * session, unknown roll number, already marked), echoed back for
 * confirmation, or, when confirmed, committed as one Attendance row.
 */
module Redemption {
  import opened Wrappers
  import opened Models
  import opened Sessions

  /** The two messages the form can show. */
  datatype Message =
    | AlreadyMarked    // "Attendance already marked!"
    | InvalidRollNo    // "Invalid Roll No!"

  /** The page `attendance_form` answers with. */
  datatype Page =
    | SessionNotFound                                   // `get_object_or_404` fails: HTTP 404
    | FormPage(expired: bool, message: Option<Message>) // attendance_form.html
    | ConfirmPage(student: StudentId, session: SessionId)
    | SuccessPage(student: StudentId, session: SessionId, subject: SubjectId)

  /** The value of the `confirm` field that commits the attendance. */
  const ConfirmYes: string := "yes"

  /** `st` is the student whose roll number was submitted. */
  predicate Identifies(db: Db, rollNo: Option<string>, st: StudentId) {
    st in db.students && Some(db.students[st].rollNo) == rollNo
  }

  /** The INSERT of an Attendance row under the next id, stamped `now` (`auto_now_add`). */
  function Record(db: Db, st: StudentId, q: SessionId, now: Time): (r: Db)
    ensures r.attendance.Keys == db.attendance.Keys + {db.nextAttendance}
    ensures r.attendance[db.nextAttendance] == Attendance(st, q, now)
    ensures forall a :: a in db.attendance && a != db.nextAttendance ==> r.attendance[a] == db.attendance[a]
    ensures Marked(r.attendance, st, q)
    ensures r.branches == db.branches && r.subjects == db.subjects &&
      r.students == db.students && r.sessions == db.sessions
    ensures r.nextSession == db.nextSession && r.nextAttendance == db.nextAttendance + 1
  {
    db.(attendance := db.attendance[db.nextAttendance := Attendance(st, q, now)], nextAttendance := db.nextAttendance + 1)
  }

  /**
   * For a known student and session not yet paired in the ledger, the schema
   * still holds after the INSERT, which adds exactly one row.
   */
  lemma RecordKeepsValid(db: Db, st: StudentId, q: SessionId, now: Time)
    requires Valid(db) && st in db.students && q in db.sessions && !Marked(db.attendance, st, q)
    ensures Valid(Record(db, st, q, now))
    ensures db.nextAttendance !in db.attendance && |Record(db, st, q, now).attendance| == |db.attendance| + 1
  {
    var r := Record(db, st, q, now);
    var n := db.nextAttendance;
    assert n !in db.attendance;
    assert PairsUnique(r.attendance) by {
      InsertKeepsPairsUnique(db.attendance, n, Attendance(st, q, now));
    }
    InsertKeepsReferences(db, st, q, now, r);
    SizeAfterInsert(db.attendance, n, Attendance(st, q, now));
  }

  lemma InsertKeepsReferences(db: Db, st: StudentId, q: SessionId, now: Time, r: Db)
    requires r == db.(attendance := db.attendance[db.nextAttendance := Attendance(st, q, now)],
                      nextAttendance := db.nextAttendance + 1)
    requires ReferencesResolve(db) && CountersAhead(db) && st in db.students && q in db.sessions
    ensures ReferencesResolve(r) && CountersAhead(r)
  {
    forall a | a in r.attendance
      ensures r.attendance[a].student in r.students && r.attendance[a].session in r.sessions
      ensures a < r.nextAttendance
    {
      if a != db.nextAttendance {
        assert a in db.attendance && r.attendance[a] == db.attendance[a];
      }
    }
  }

  lemma InsertKeepsPairsUnique(m: map<AttendanceId, Attendance>, n: AttendanceId, row: Attendance)
    requires PairsUnique(m) && n !in m
    requires !Marked(m, row.student, row.session)
    ensures PairsUnique(m[n := row])
  {
    var m' := m[n := row];
    forall a1, a2 | a1 in m' && a2 in m' && m'[a1].student == m'[a2].student && m'[a1].session == m'[a2].session
      ensures a1 == a2
    {
      assert a1 != n ==> a1 in m && m'[a1] == m[a1];
      assert a2 != n ==> a2 in m && m'[a2] == m[a2];
    }
  }

  /**
   * One request to `attendance_form` for session id `sessionId` at time `now`:
   * the page shown and the database afterwards. `rollNo` and `confirm` are the
   * POST fields, `None` when absent.
   */
  function Redeem(db: Db, sessionId: SessionId, now: Time, isPost: bool, rollNo: Option<string>, confirm: Option<string>): (r: (Page, Db))
    requires Valid(db)
    ensures Valid(r.1)
    // Only a committed attendance changes the database.
    ensures !r.0.SuccessPage? ==> r.1 == db
    ensures r.0 == SessionNotFound <==> sessionId !in db.sessions
    // A GET, or any request once the session has expired, gets the bare form.
    ensures sessionId in db.sessions && (!isPost || IsExpired(db.sessions[sessionId], now)) ==>
      r.0 == FormPage(IsExpired(db.sessions[sessionId], now), None)
    ensures r.0 == FormPage(false, Some(InvalidRollNo)) <==>
      sessionId in db.sessions && isPost && !IsExpired(db.sessions[sessionId], now) &&
      forall st :: st in db.students ==> !Identifies(db, rollNo, st)
    ensures r.0 == FormPage(false, Some(AlreadyMarked)) <==>
      sessionId in db.sessions && isPost && !IsExpired(db.sessions[sessionId], now) &&
      exists st :: Identifies(db, rollNo, st) && Marked(db.attendance, st, sessionId)
    ensures r.0.ConfirmPage? <==>
      sessionId in db.sessions && isPost && !IsExpired(db.sessions[sessionId], now) && confirm != Some(ConfirmYes) &&
      exists st :: Identifies(db, rollNo, st) && !Marked(db.attendance, st, sessionId)
    ensures r.0.SuccessPage? <==>
      sessionId in db.sessions && isPost && !IsExpired(db.sessions[sessionId], now) && confirm == Some(ConfirmYes) &&
      exists st :: Identifies(db, rollNo, st) && !Marked(db.attendance, st, sessionId)
    ensures r.0.ConfirmPage? ==> r.0.session == sessionId && Identifies(db, rollNo, r.0.student)
    // A commit adds exactly one row, for the identified student and this session.
    ensures r.0.SuccessPage? ==>
      r.0.session == sessionId && sessionId in db.sessions &&
      r.0.subject == db.sessions[sessionId].subject &&
      Identifies(db, rollNo, r.0.student) &&
      !Marked(db.attendance, r.0.student, sessionId) &&
      Marked(r.1.attendance, r.0.student, sessionId) &&
      db.nextAttendance !in db.attendance &&
      r.1.attendance == db.attendance[db.nextAttendance := Attendance(r.0.student, sessionId, now)] &&
      |r.1.attendance| == |db.attendance| + 1 &&
      r.1.branches == db.branches && r.1.subjects == db.subjects &&
      r.1.students == db.students && r.1.sessions == db.sessions &&
      r.1.nextSession == db.nextSession && r.1.nextAttendance == db.nextAttendance + 1
  {
    if sessionId !in db.sessions then (SessionNotFound, db)
    else
      var session := db.sessions[sessionId];
      var expired := IsExpired(session, now);
      if !isPost || expired then (FormPage(expired, None), db)
      else
        match FindByRoll(db.students, rollNo)
        case None => (FormPage(false, Some(InvalidRollNo)), db)
        case Some(st) =>
          assert forall other :: Identifies(db, rollNo, other) ==> other == st;
          if Marked(db.attendance, st, sessionId) then (FormPage(false, Some(AlreadyMarked)), db)
          else if confirm == Some(ConfirmYes) then
            RecordKeepsValid(db, st, sessionId, now);
            (SuccessPage(st, sessionId, session.subject), Record(db, st, sessionId, now))
          else (ConfirmPage(st, sessionId), db)
  }

  /**
   * Idempotence: after a committed redemption, the same submission again (at
   * any later time, confirmed or not) changes nothing. While the session is
   * open it reports "already marked"; afterwards it shows the expired form.
   */
  lemma {:induction false} RedeemTwice(db: Db, sessionId: SessionId, now1: Time, now2: Time, rollNo: Option<string>, confirm2: Option<string>)
    requires Valid(db)
    requires sessionId in db.sessions && !IsExpired(db.sessions[sessionId], now1)
    requires exists st :: Identifies(db, rollNo, st) && !Marked(db.attendance, st, sessionId)
    ensures Redeem(db, sessionId, now1, true, rollNo, Some(ConfirmYes)).0.SuccessPage?
    ensures var after := Redeem(db, sessionId, now1, true, rollNo, Some(ConfirmYes)).1;
      var again := Redeem(after, sessionId, now2, true, rollNo, confirm2);
      again.1 == after &&
      |again.1.attendance| == |db.attendance| + 1 &&
      again.0 == (if IsExpired(db.sessions[sessionId], now2) then FormPage(true, None)
                  else FormPage(false, Some(AlreadyMarked)))
  {
    var first := Redeem(db, sessionId, now1, true, rollNo, Some(ConfirmYes));
    var st := first.0.student;
    assert Identifies(first.1, rollNo, st) && Marked(first.1.attendance, st, sessionId);
  }

  /** One form submission. */
  datatype Submission = Submission(sessionId: SessionId, now: Time, isPost: bool, rollNo: Option<string>, confirm: Option<string>)

  /** The database after the submissions have been handled one after another. */
  function RedeemAll(db: Db, subs: seq<Submission>): (r: Db)
    requires Valid(db)
    ensures Valid(r)
    decreases |subs|
  {
    if subs == [] then db
    else
      var s := subs[0];
      RedeemAll(Redeem(db, s.sessionId, s.now, s.isPost, s.rollNo, s.confirm).1, subs[1..])
  }

  /**
   * However many submissions arrive, one after another, the ledger never
   * holds two records for the same (student, session) pair, and it only grows.
   */
  lemma {:induction false} RedeemAllKeepsOneRecordPerPair(db: Db, subs: seq<Submission>, st: StudentId, q: SessionId)
    requires Valid(db)
    ensures |RecordsFor(RedeemAll(db, subs).attendance, st, q)| <= 1
    ensures db.attendance.Keys <= RedeemAll(db, subs).attendance.Keys
    decreases |subs|
  {
    if subs == [] {
      AtMostOneRecordPerPair(db.attendance, st, q);
    } else {
      var s := subs[0];
      var next := Redeem(db, s.sessionId, s.now, s.isPost, s.rollNo, s.confirm).1;
      RedeemAllKeepsOneRecordPerPair(next, subs[1..], st, q);
    }
  }
}
