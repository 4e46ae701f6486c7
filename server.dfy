/**
 * The views of qr_app/views.py that change the database, written the way they
 * run: a store object with one mutable field per table, whose methods take one
 * request each and insert rows step by step. Every method is proved to leave
 * the store exactly as the matching pure function of the `Sessions` and
 * `Redemption` modules says, so the properties proved there hold of it.
 */
module Server {
  import opened Wrappers
  import opened Models
  import opened Sessions
  import opened Redemption

  class Store {
    var branches: map<BranchId, Branch>
    var subjects: map<SubjectId, Subject>
    var students: map<StudentId, Student>
    var sessions: map<SessionId, QRSession>
    var attendance: map<AttendanceId, Attendance>
    var nextSession: nat
    var nextAttendance: nat

    /** The tables as one database value. */
    function State(): Db
      reads this
    {
      Db(branches, subjects, students, sessions, attendance, nextSession, nextAttendance)
    }

    /** The stored tables satisfy the schema. */
    ghost predicate Valid()
      reads this
    {
      Models.Valid(State())
    }

    constructor (initial: Db)
      requires Models.Valid(initial)
      ensures Valid() && State() == initial
    {
      branches, subjects, students := initial.branches, initial.subjects, initial.students;
      sessions, attendance := initial.sessions, initial.attendance;
      nextSession, nextAttendance := initial.nextSession, initial.nextAttendance;
    }

    /**
     * `Attendance.objects.create(student=st, qr_session=q)`: the database
     * refuses the row when the pair is already in the ledger (`ok` is false,
     * an IntegrityError) and otherwise stores it under the next id.
     */
    method CreateAttendance(st: StudentId, q: SessionId, now: Time) returns (ok: bool)
      requires Valid() && st in students && q in sessions
      modifies this
      ensures Valid()
      ensures ok <==> !Marked(old(attendance), st, q)
      ensures State() == if ok then Record(old(State()), st, q, now) else old(State())
    {
      if Marked(attendance, st, q) {
        return false;
      }
      ghost var before := State();
      var n := nextAttendance;
      attendance := attendance[n := Attendance(st, q, now)];
      nextAttendance := n + 1;
      ok := true;
      assert State() == Record(before, st, q, now);
      RecordKeepsValid(before, st, q, now);
    }

    /**
     * `QRSession.objects.create(...)`: the database refuses the row when its
     * token is already stored (`None`, an IntegrityError) and otherwise stores
     * it under the next id.
     */
    method CreateSession(session: QRSession) returns (id: Option<SessionId>)
      requires Valid() && session.subject in subjects
      modifies this
      ensures Valid()
      ensures id.None? <==> TokenInUse(old(sessions), session.token)
      ensures id.Some? ==> id.value == old(nextSession)
      ensures State() == if id.Some? then StoreSession(old(State()), session) else old(State())
    {
      if TokenInUse(sessions, session.token) {
        return None;
      }
      ghost var before := State();
      id := Some(nextSession);
      sessions := sessions[nextSession := session];
      nextSession := nextSession + 1;
      assert State() == StoreSession(before, session);
      StoreSessionKeepsValid(before, session);
    }

    /**
     * `generate_qr` with the token of the new session supplied by the caller:
     * a GET only shows the form; a POST looks up the subject, then creates the
     * session.
     */
    method IssueSession(isPost: bool, subjectId: Option<SubjectId>, duration: Option<int>, now: Time, token: string)
      returns (out: CreateOutcome)
      requires Valid()
      modifies this
      ensures Valid()
      ensures (out, State()) == CreateSessionWithToken(old(State()), isPost, subjectId, duration, now, token)
    {
      if !isPost {
        return FormShown;
      }
      var minutes := duration.GetOr(DefaultDuration);
      if subjectId.None? || subjectId.value !in subjects {
        return SubjectNotFound;
      }
      out := OpenSession(subjectId.value, minutes, now, token);
      assert duration.GetOr(DefaultDuration) == minutes;
    }

    /**
     * The POST of `generate_qr` once the subject is found: a session whose
     * `expires_at` lies `minutes` after `now`.
     */
    method OpenSession(subject: SubjectId, minutes: int, now: Time, token: string) returns (out: CreateOutcome)
      requires Valid() && subject in subjects
      modifies this
      ensures Valid()
      ensures (out, State()) == CreateSessionWithToken(old(State()), true, Some(subject), Some(minutes), now, token)
    {
      ghost var before := State();
      var session := QRSession(subject, token, now, now + minutes * SecondsPerMinute);
      var created := CreateSession(session);
      if created.None? {
        RefusedPath(before, subject, minutes, now, token);
        return IntegrityError;
      }
      CreatedPath(before, subject, minutes, now, token);
      out := Created(created.value);
    }

    /** `generate_qr` as written: the token is never set. */
    method GenerateQr(isPost: bool, subjectId: Option<SubjectId>, duration: Option<int>, now: Time)
      returns (out: CreateOutcome)
      requires Valid()
      modifies this
      ensures Valid()
      ensures (out, State()) == Sessions.GenerateQr(old(State()), isPost, subjectId, duration, now)
    {
      out := IssueSession(isPost, subjectId, duration, now, UnsetToken);
    }

    /**
     * `attendance_form`: resolve the session by id, refuse an expired one,
     * look the student up by roll number, refuse a second record, and commit
     * only when the confirmation field says "yes".
     */
    method Redeem(sessionId: SessionId, now: Time, isPost: bool, rollNo: Option<string>, confirm: Option<string>)
      returns (page: Page)
      requires Valid()
      modifies this
      ensures Valid()
      ensures (page, State()) == Redemption.Redeem(old(State()), sessionId, now, isPost, rollNo, confirm)
    {
      if sessionId !in sessions {
        return SessionNotFound;
      }
      var session := sessions[sessionId];
      var expired := IsExpired(session, now);
      if isPost && !expired {
        var found := FindByRoll(students, rollNo);
        match found {
          case None =>
            return FormPage(false, Some(InvalidRollNo));
          case Some(st) =>
            if Marked(attendance, st, sessionId) {
              return FormPage(false, Some(AlreadyMarked));
            }
            if confirm == Some(ConfirmYes) {
              var ok := CreateAttendance(st, sessionId, now);
              return SuccessPage(st, sessionId, session.subject);
            }
            return ConfirmPage(st, sessionId);
        }
      }
      page := FormPage(expired, None);
    }
  }

  /** A first-year CSE student enrolled in CS101 (subject 0). */
  function Fresher(rollNo: string, name: string): Student {
    Student(rollNo, name, None, None, None, 1, 1, Some(0), None, None, {0})
  }

  /** One branch, one subject, two students CS001 and CS002, no sessions yet. */
  const Classroom: Db :=
    Db(map[0 := Branch("CSE")], map[0 := Subject("CS101", "Programming", 0, 1)],
       map[0 := Fresher("CS001", "Asha"), 1 := Fresher("CS002", "Ravi")], map[], map[], 0, 0)

  lemma ClassroomValid()
    ensures Models.Valid(Classroom)
  {
    ClassroomRollNumbers();
    ClassroomReferences();
    ClassroomChoices();
  }

  lemma ClassroomChoices()
    ensures ChoicesInRange(Classroom)
  {
    assert forall s :: s in Classroom.students ==> s == 0 || s == 1;
  }

  lemma ClassroomRollNumbers()
    ensures RollNumbersUnique(Classroom.students)
  {
    assert Classroom.students[0].rollNo != Classroom.students[1].rollNo;
  }

  lemma ClassroomReferences()
    ensures ReferencesResolve(Classroom)
  {
    assert forall s :: s in Classroom.students ==> s == 0 || s == 1;
  }

  /** The database once session 0 is open: created at `t0`, expiring at `t0 + 300`. */
  function OpenClassroom(t0: Time): Db {
    Classroom.(sessions := map[0 := QRSession(0, UnsetToken, t0, t0 + 300)], nextSession := 1)
  }

  /** The database once CS001 is marked: session 0 holds one record, stamped `t0 + 60`. */
  function MarkedClassroom(t0: Time): Db {
    OpenClassroom(t0).(attendance := map[0 := Attendance(0, 0, t0 + 60)], nextAttendance := 1)
  }

  /** Opening a five-minute session at `t0` stores session 0, open until `t0 + 300`. */
  lemma OpenStep(t0: Time)
    ensures Sessions.GenerateQr(Classroom, true, Some(0), Some(5), t0) == (Created(0), OpenClassroom(t0))
  {
    assert !TokenInUse(Classroom.sessions, UnsetToken);
    CreatedPath(Classroom, 0, 5, t0, UnsetToken);
    var session := QRSession(0, UnsetToken, t0, t0 + 5 * SecondsPerMinute);
    assert Sessions.GenerateQr(Classroom, true, Some(0), Some(5), t0) ==
      CreateSessionWithToken(Classroom, true, Some(0), Some(5), t0, UnsetToken);
    assert StoreSession(Classroom, session) ==
      Classroom.(sessions := Classroom.sessions[0 := session], nextSession := 1);
    assert Classroom.sessions[0 := session] == map[0 := QRSession(0, UnsetToken, t0, t0 + 300)];
  }

  /** CS001, confirming a minute in, is marked: one record is stored. */
  lemma MarkStep(t0: Time)
    ensures Models.Valid(OpenClassroom(t0)) &&
      Redemption.Redeem(OpenClassroom(t0), 0, t0 + 60, true, Some("CS001"), Some(ConfirmYes)) ==
        (SuccessPage(0, 0, 0), MarkedClassroom(t0))
  {
    ClassroomValid();
    OpenStep(t0);
    var open := OpenClassroom(t0);
    assert open.students == Classroom.students && 0 in open.students && open.students[0].rollNo == "CS001";
    assert FindByRoll(open.students, Some("CS001")) == Some(0);
    assert !Marked(open.attendance, 0, 0);
  }

  lemma MarkedClassroomValid(t0: Time)
    ensures Models.Valid(MarkedClassroom(t0))
  {
    MarkStep(t0);
  }

  /** CS001 again, a minute later, is told the attendance is already marked. */
  lemma AgainStep(t0: Time)
    ensures Models.Valid(MarkedClassroom(t0)) &&
      Redemption.Redeem(MarkedClassroom(t0), 0, t0 + 120, true, Some("CS001"), Some(ConfirmYes)) ==
        (FormPage(false, Some(AlreadyMarked)), MarkedClassroom(t0))
  {
    MarkedClassroomValid(t0);
    var students := MarkedClassroom(t0).students;
    assert students == Classroom.students && 0 in students && students[0].rollNo == "CS001";
    assert FindByRoll(students, Some("CS001")) == Some(0);
    assert Marked(MarkedClassroom(t0).attendance, 0, 0);
  }

  /** ZZ999 is no student's roll number. */
  lemma UnknownStep(t0: Time)
    ensures Models.Valid(MarkedClassroom(t0)) &&
      Redemption.Redeem(MarkedClassroom(t0), 0, t0 + 120, true, Some("ZZ999"), Some(ConfirmYes)) ==
        (FormPage(false, Some(InvalidRollNo)), MarkedClassroom(t0))
  {
    MarkedClassroomValid(t0);
    assert "ZZ999" != "CS001" && "ZZ999" != "CS002";
    assert FindByRoll(MarkedClassroom(t0).students, Some("ZZ999")) == None;
  }

  /** CS002, six minutes in, finds the five-minute session expired. */
  lemma LateStep(t0: Time)
    ensures Models.Valid(MarkedClassroom(t0)) &&
      Redemption.Redeem(MarkedClassroom(t0), 0, t0 + 360, true, Some("CS002"), Some(ConfirmYes)) ==
        (FormPage(true, None), MarkedClassroom(t0))
  {
    MarkedClassroomValid(t0);
  }

  /**
   * A class walking in: a five-minute session for CS101 created at `t0`;
   * CS001 confirms one minute in and is marked; CS001 again a minute later is
   * told it is already marked; ZZ999 is not a roll number; CS002 six minutes
   * in finds the session expired. Exactly one record is stored.
   */
  method Scenario(t0: Time) returns (created: CreateOutcome, first: Page, again: Page, unknown: Page, late: Page, records: nat)
    ensures created == Created(0)
    ensures first == SuccessPage(0, 0, 0)
    ensures again == FormPage(false, Some(AlreadyMarked))
    ensures unknown == FormPage(false, Some(InvalidRollNo))
    ensures late == FormPage(true, None)
    ensures records == 1
  {
    ClassroomValid();
    var store := new Store(Classroom);
    OpenStep(t0);
    created := store.GenerateQr(true, Some(0), Some(5), t0);
    assert store.State() == OpenClassroom(t0);
    MarkStep(t0);
    first := store.Redeem(0, t0 + 60, true, Some("CS001"), Some(ConfirmYes));
    assert store.State() == MarkedClassroom(t0);
    AgainStep(t0);
    again := store.Redeem(0, t0 + 120, true, Some("CS001"), Some(ConfirmYes));
    assert store.State() == MarkedClassroom(t0);
    UnknownStep(t0);
    unknown := store.Redeem(0, t0 + 120, true, Some("ZZ999"), Some(ConfirmYes));
    assert store.State() == MarkedClassroom(t0);
    LateStep(t0);
    late := store.Redeem(0, t0 + 360, true, Some("CS002"), Some(ConfirmYes));
    assert store.State() == MarkedClassroom(t0);
    records := |store.attendance|;
  }
}
