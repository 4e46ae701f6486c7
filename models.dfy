/**
 * The schema of the attendance tracker (qr_app/models.py): one datatype per
 * table row, the whole database as one value `Db`, the constraints the schema
 * declares as predicates over it, and the cascade rules of its foreign keys as
 * delete functions that keep those constraints.
 */
module Models {
  import opened Wrappers

  // Primary keys are the auto-increment integers of each table.
  type BranchId = nat
  type SubjectId = nat
  type StudentId = nat
  type SessionId = nat
  type AttendanceId = nat

  /** A point in time, in whole seconds since the epoch. */
  type Time = int
  /** A calendar day, counted in days since the epoch. */
  type Date = int

  const SecondsPerMinute: int := 60
  const SecondsPerDay: int := 86400

  /** The calendar day a point in time falls on (`timestamp__date`). */
  function DateOf(t: Time): (d: Date)
    ensures d * SecondsPerDay <= t < d * SecondsPerDay + SecondsPerDay
  {
    t / SecondsPerDay
  }

  // The `choices` of the integer fields.
  const MinSemester: int := 1
  const MaxSemester: int := 6
  const MinYear: int := 1
  const MaxYear: int := 3

  datatype Branch = Branch(name: string)

  datatype Subject = Subject(code: string, name: string, branch: BranchId, semester: int)

  /** A student, with the subjects it is enrolled in (the many-to-many field). */
  datatype Student = Student(
    rollNo: string,
    name: string,
    fatherName: Option<string>,
    motherName: Option<string>,
    dob: Option<Date>,
    year: int,
    semester: int,
    branch: Option<BranchId>,
    mobile: Option<string>,
    email: Option<string>,
    subjects: set<SubjectId>)

  /** An attendance window for one subject. */
  datatype QRSession = QRSession(subject: SubjectId, token: string, createdAt: Time, expiresAt: Time)

  /** One ledger row: `student` was marked present in `session` at `timestamp`. */
  datatype Attendance = Attendance(student: StudentId, session: SessionId, timestamp: Time)

  /**
   * The database: one map per table from primary key to row, and the next
   * value of the auto-increment counters of the two tables the core inserts into.
   */
  datatype Db = Db(
    branches: map<BranchId, Branch>,
    subjects: map<SubjectId, Subject>,
    students: map<StudentId, Student>,
    sessions: map<SessionId, QRSession>,
    attendance: map<AttendanceId, Attendance>,
    nextSession: nat,
    nextAttendance: nat)

  // ---------------------------------------------------------------------------
  // Constraints declared by the schema
  // ---------------------------------------------------------------------------

  /** `Branch.name` is unique. */
  ghost predicate BranchNamesUnique(branches: map<BranchId, Branch>) {
    forall b1, b2 :: b1 in branches && b2 in branches && branches[b1].name == branches[b2].name ==> b1 == b2
  }

  /** `Subject.code` is unique. */
  ghost predicate SubjectCodesUnique(subjects: map<SubjectId, Subject>) {
    forall s1, s2 :: s1 in subjects && s2 in subjects && subjects[s1].code == subjects[s2].code ==> s1 == s2
  }

  /** `Student.roll_no` is unique. */
  ghost predicate RollNumbersUnique(students: map<StudentId, Student>) {
    forall s1, s2 :: s1 in students && s2 in students && students[s1].rollNo == students[s2].rollNo ==> s1 == s2
  }

  /** `QRSession.token` is unique. */
  ghost predicate TokensUnique(sessions: map<SessionId, QRSession>) {
    forall q1, q2 :: q1 in sessions && q2 in sessions && sessions[q1].token == sessions[q2].token ==> q1 == q2
  }

  /** `unique_together = ('student', 'qr_session')` on Attendance. */
  ghost predicate PairsUnique(attendance: map<AttendanceId, Attendance>) {
    forall a1, a2 ::
      a1 in attendance && a2 in attendance &&
      attendance[a1].student == attendance[a2].student &&
      attendance[a1].session == attendance[a2].session
      ==> a1 == a2
  }

  /** The integer fields hold one of their declared choices. */
  ghost predicate ChoicesInRange(db: Db) {
    (forall s :: s in db.subjects ==> MinSemester <= db.subjects[s].semester <= MaxSemester) &&
    (forall s :: s in db.students ==>
      MinYear <= db.students[s].year <= MaxYear && MinSemester <= db.students[s].semester <= MaxSemester)
  }

  /** Every foreign key, and every enrolment, names an existing row. */
  ghost predicate ReferencesResolve(db: Db) {
    (forall s :: s in db.subjects ==> db.subjects[s].branch in db.branches) &&
    (forall s :: s in db.students ==>
      (db.students[s].branch.Some? ==> db.students[s].branch.value in db.branches) &&
      db.students[s].subjects <= db.subjects.Keys) &&
    (forall q :: q in db.sessions ==> db.sessions[q].subject in db.subjects) &&
    (forall a :: a in db.attendance ==>
      db.attendance[a].student in db.students && db.attendance[a].session in db.sessions)
  }

  /** The auto-increment counters lie above every key already issued. */
  ghost predicate CountersAhead(db: Db) {
    (forall q :: q in db.sessions ==> q < db.nextSession) &&
    (forall a :: a in db.attendance ==> a < db.nextAttendance)
  }

  /**
   * The invariant every operation keeps: the uniqueness constraints and
   * foreign keys the database enforces, the `choices` Django's validation
   * checks, and the model's own condition that the counters are ahead of
   * every key.
   */
  ghost predicate Valid(db: Db) {
    BranchNamesUnique(db.branches) &&
    SubjectCodesUnique(db.subjects) &&
    RollNumbersUnique(db.students) &&
    TokensUnique(db.sessions) &&
    PairsUnique(db.attendance) &&
    ChoicesInRange(db) &&
    ReferencesResolve(db) &&
    CountersAhead(db)
  }

  // ---------------------------------------------------------------------------
  // Queries the views issue
  // ---------------------------------------------------------------------------

  /** The students `Student.objects.filter(roll_no=rollNo)` selects. */
  function StudentsWithRoll(students: map<StudentId, Student>, rollNo: string): set<StudentId> {
    set s | s in students && students[s].rollNo == rollNo
  }

  /** The ledger rows `Attendance.objects.filter(student=..., qr_session=...)` selects. */
  function RecordsFor(attendance: map<AttendanceId, Attendance>, student: StudentId, session: SessionId): set<AttendanceId> {
    set a | a in attendance && attendance[a].student == student && attendance[a].session == session
  }

  /** `Attendance.objects.filter(student=..., qr_session=...).exists()`. */
  predicate Marked(attendance: map<AttendanceId, Attendance>, student: StudentId, session: SessionId) {
    exists a :: a in attendance && attendance[a].student == student && attendance[a].session == session
  }

  /** Adding a row under a new key grows a table by one. */
  lemma SizeAfterInsert<V>(m: map<nat, V>, k: nat, v: V)
    ensures k !in m ==> |m[k := v]| == |m| + 1
  {
  }

  /** Because roll numbers are unique, a lookup by roll number finds at most one student. */
  lemma {:induction false} RollLookupAtMostOne(students: map<StudentId, Student>, rollNo: string)
    requires RollNumbersUnique(students)
    ensures |StudentsWithRoll(students, rollNo)| <= 1
  {
    var found := StudentsWithRoll(students, rollNo);
    if found != {} {
      var s :| s in found;
      assert found == {s};
    }
  }

  /** Because (student, session) is unique, the ledger holds at most one record per pair. */
  lemma {:induction false} AtMostOneRecordPerPair(attendance: map<AttendanceId, Attendance>, student: StudentId, session: SessionId)
    requires PairsUnique(attendance)
    ensures |RecordsFor(attendance, student, session)| <= 1
    ensures |RecordsFor(attendance, student, session)| == 1 <==> Marked(attendance, student, session)
  {
    var found := RecordsFor(attendance, student, session);
    if Marked(attendance, student, session) {
      var a :| a in attendance && attendance[a].student == student && attendance[a].session == session;
      assert found == {a};
    }
  }

  /**
   * The student `Student.objects.get(roll_no=rollNo)` returns, or None where it
   * raises DoesNotExist. A missing form field is `None`, which matches no row
   * because `roll_no` is not nullable.
   */
  function FindByRoll(students: map<StudentId, Student>, rollNo: Option<string>): (r: Option<StudentId>)
    requires RollNumbersUnique(students)
    ensures r.Some? ==> r.value in students && Some(students[r.value].rollNo) == rollNo
    ensures r.None? ==> forall s :: s in students ==> Some(students[s].rollNo) != rollNo
  {
    if rollNo.None? then None
    else
      var found := StudentsWithRoll(students, rollNo.value);
      if found == {} then
        assert forall s :: s in students ==> s !in found;
        None
      else
        RollLookupAtMostOne(students, rollNo.value);
        var s :| s in found;
        Some(s)
  }

  // ---------------------------------------------------------------------------
  // Cascade rules (`on_delete`)
  // ---------------------------------------------------------------------------

  /** The ledger without the rows of the given sessions and students. */
  function DropRecords(attendance: map<AttendanceId, Attendance>, sessions: set<SessionId>, students: set<StudentId>): (r: map<AttendanceId, Attendance>)
    ensures forall a :: a in r <==>
      a in attendance && attendance[a].session !in sessions && attendance[a].student !in students
    ensures forall a :: a in r ==> r[a] == attendance[a]
  {
    map a | a in attendance && attendance[a].session !in sessions && attendance[a].student !in students :: attendance[a]
  }

  /** A cascade only removes rows: the ledger shrinks, and a ledger with one row per pair keeps that. */
  lemma DropRecordsShrinks(attendance: map<AttendanceId, Attendance>, sessions: set<SessionId>, students: set<StudentId>)
    ensures |DropRecords(attendance, sessions, students)| <= |attendance|
    ensures PairsUnique(attendance) ==> PairsUnique(DropRecords(attendance, sessions, students))
  {
    var r := DropRecords(attendance, sessions, students);
    SubsetSize(r.Keys, attendance.Keys);
  }

  lemma {:induction false} SubsetSize<T>(small: set<T>, large: set<T>)
    requires small <= large
    ensures |small| <= |large|
    decreases large
  {
    if small != {} {
      var x :| x in small;
      SubsetSize(small - {x}, large - {x});
    }
  }

  /**
   * Deleting a QRSession deletes its Attendance rows (`qr_session` is
   * CASCADE); every other table is untouched.
   */
  function DeleteSession(db: Db, q: SessionId): (r: Db)
    ensures Valid(db) ==> Valid(r)
    ensures q !in r.sessions && r.sessions.Keys == db.sessions.Keys - {q}
    ensures forall p :: p in r.sessions ==> r.sessions[p] == db.sessions[p]
    ensures forall a :: a in r.attendance ==> r.attendance[a].session != q
    ensures forall a :: a in r.attendance <==> a in db.attendance && db.attendance[a].session != q
    ensures forall a :: a in r.attendance ==> r.attendance[a] == db.attendance[a]
    ensures r.attendance.Keys <= db.attendance.Keys
    ensures r.branches == db.branches && r.subjects == db.subjects && r.students == db.students
    ensures r.nextSession == db.nextSession && r.nextAttendance == db.nextAttendance
  {
    var r := db.(sessions := db.sessions - {q}, attendance := DropRecords(db.attendance, {q}, {}));
    DeleteSessionKeepsValid(db, q, r);
    r
  }

  lemma DeleteSessionKeepsValid(db: Db, q: SessionId, r: Db)
    requires r == db.(sessions := db.sessions - {q}, attendance := DropRecords(db.attendance, {q}, {}))
    ensures Valid(db) ==> Valid(r)
  {
    if Valid(db) {
      assert TokensUnique(r.sessions);
      assert PairsUnique(r.attendance);
      assert ReferencesResolve(r);
      assert ChoicesInRange(r);
      assert CountersAhead(r);
    }
  }

  /**
   * Deleting a Student deletes its Attendance rows (`student` is CASCADE) and
   * its enrolments; every other table is untouched.
   */
  function DeleteStudent(db: Db, s: StudentId): (r: Db)
    ensures Valid(db) ==> Valid(r)
    ensures s !in r.students && r.students.Keys == db.students.Keys - {s}
    ensures forall x :: x in r.students ==> r.students[x] == db.students[x]
    ensures forall a :: a in r.attendance ==> r.attendance[a].student != s
    ensures forall a :: a in r.attendance <==> a in db.attendance && db.attendance[a].student != s
    ensures forall a :: a in r.attendance ==> r.attendance[a] == db.attendance[a]
    ensures r.attendance.Keys <= db.attendance.Keys
    ensures r.branches == db.branches && r.subjects == db.subjects && r.sessions == db.sessions
    ensures r.nextSession == db.nextSession && r.nextAttendance == db.nextAttendance
  {
    var r := db.(students := db.students - {s}, attendance := DropRecords(db.attendance, {}, {s}));
    DeleteStudentKeepsValid(db, s, r);
    r
  }

  lemma DeleteStudentKeepsValid(db: Db, s: StudentId, r: Db)
    requires r == db.(students := db.students - {s}, attendance := DropRecords(db.attendance, {}, {s}))
    ensures Valid(db) ==> Valid(r)
  {
    if Valid(db) {
      assert RollNumbersUnique(r.students);
      assert PairsUnique(r.attendance);
      assert ReferencesResolve(r);
      assert ChoicesInRange(r);
      assert CountersAhead(r);
    }
  }

  /** The sessions held for one of the given subjects. */
  function SessionsOf(sessions: map<SessionId, QRSession>, gone: set<SubjectId>): set<SessionId> {
    set q | q in sessions && sessions[q].subject in gone
  }

  /**
   * Deleting a set of subjects: their sessions go (`subject` is CASCADE), and
   * with them those sessions' Attendance rows; each student loses its
   * enrolment in them.
   */
  function DeleteSubjects(db: Db, gone: set<SubjectId>): (r: Db)
    ensures Valid(db) ==> Valid(r)
    ensures r.subjects.Keys == db.subjects.Keys - gone
    ensures forall s :: s in r.subjects ==> r.subjects[s] == db.subjects[s]
    ensures forall q :: q in r.sessions <==> q in db.sessions && db.sessions[q].subject !in gone
    ensures forall q :: q in r.sessions ==> r.sessions[q] == db.sessions[q]
    ensures forall a :: a in r.attendance <==>
      a in db.attendance && db.attendance[a].session !in SessionsOf(db.sessions, gone)
    ensures forall a :: a in r.attendance ==> r.attendance[a] == db.attendance[a]
    ensures r.students.Keys == db.students.Keys
    ensures forall s :: s in r.students ==>
      r.students[s] == db.students[s].(subjects := db.students[s].subjects - gone)
    ensures r.branches == db.branches
    ensures r.nextSession == db.nextSession && r.nextAttendance == db.nextAttendance
  {
    var r := db.(subjects := map s | s in db.subjects && s !in gone :: db.subjects[s],
                 sessions := map q | q in db.sessions && db.sessions[q].subject !in gone :: db.sessions[q],
                 attendance := DropRecords(db.attendance, SessionsOf(db.sessions, gone), {}),
                 students := map s | s in db.students :: db.students[s].(subjects := db.students[s].subjects - gone));
    DeleteSubjectsKeepsValid(db, gone, r);
    r
  }

  lemma DeleteSubjectsKeepsValid(db: Db, gone: set<SubjectId>, r: Db)
    requires r == db.(subjects := map s | s in db.subjects && s !in gone :: db.subjects[s],
                      sessions := map q | q in db.sessions && db.sessions[q].subject !in gone :: db.sessions[q],
                      attendance := DropRecords(db.attendance, SessionsOf(db.sessions, gone), {}),
                      students := map s | s in db.students :: db.students[s].(subjects := db.students[s].subjects - gone))
    ensures Valid(db) ==> Valid(r)
  {
    if Valid(db) {
      DeleteSubjectsKeepsRollNumbers(db, gone, r);
      DeleteSubjectsKeepsReferences(db, gone, r);
      assert SubjectCodesUnique(r.subjects) && TokensUnique(r.sessions) && PairsUnique(r.attendance);
      assert ChoicesInRange(r);
    }
  }

  lemma DeleteSubjectsKeepsRollNumbers(db: Db, gone: set<SubjectId>, r: Db)
    requires r == db.(subjects := map s | s in db.subjects && s !in gone :: db.subjects[s],
                      sessions := map q | q in db.sessions && db.sessions[q].subject !in gone :: db.sessions[q],
                      attendance := DropRecords(db.attendance, SessionsOf(db.sessions, gone), {}),
                      students := map s | s in db.students :: db.students[s].(subjects := db.students[s].subjects - gone))
    requires RollNumbersUnique(db.students)
    ensures RollNumbersUnique(r.students)
  {
    forall s1, s2 | s1 in r.students && s2 in r.students && r.students[s1].rollNo == r.students[s2].rollNo
      ensures s1 == s2
    {
      assert db.students[s1].rollNo == db.students[s2].rollNo;
    }
  }

  lemma DeleteSubjectsKeepsReferences(db: Db, gone: set<SubjectId>, r: Db)
    requires r == db.(subjects := map s | s in db.subjects && s !in gone :: db.subjects[s],
                      sessions := map q | q in db.sessions && db.sessions[q].subject !in gone :: db.sessions[q],
                      attendance := DropRecords(db.attendance, SessionsOf(db.sessions, gone), {}),
                      students := map s | s in db.students :: db.students[s].(subjects := db.students[s].subjects - gone))
    requires ReferencesResolve(db) && CountersAhead(db)
    ensures ReferencesResolve(r) && CountersAhead(r)
  {
    forall a | a in r.attendance
      ensures r.attendance[a].session in r.sessions
    {
      assert db.attendance[a].session !in SessionsOf(db.sessions, gone);
    }
  }

  /** Deleting one Subject. */
  function DeleteSubject(db: Db, s: SubjectId): (r: Db)
    ensures Valid(db) ==> Valid(r)
    ensures s !in r.subjects && r.subjects.Keys == db.subjects.Keys - {s}
    ensures forall x :: x in r.subjects ==> r.subjects[x] == db.subjects[x]
    ensures forall q :: q in r.sessions <==> q in db.sessions && db.sessions[q].subject != s
    ensures forall q :: q in r.sessions ==> r.sessions[q] == db.sessions[q]
    ensures forall a :: a in r.attendance <==>
      a in db.attendance &&
      !(db.attendance[a].session in db.sessions && db.sessions[db.attendance[a].session].subject == s)
    ensures forall a :: a in r.attendance ==> r.attendance[a] == db.attendance[a]
    ensures r.students.Keys == db.students.Keys
    ensures forall st :: st in r.students ==>
      r.students[st] == db.students[st].(subjects := db.students[st].subjects - {s})
    ensures forall st :: st in r.students ==> s !in r.students[st].subjects
    ensures r.branches == db.branches
    ensures r.nextSession == db.nextSession && r.nextAttendance == db.nextAttendance
  {
    DeleteSubjects(db, {s})
  }

  /** Sets to null the branch of every student that belongs to `b` (SET_NULL). */
  function ClearBranch(students: map<StudentId, Student>, b: BranchId): (r: map<StudentId, Student>)
    ensures r.Keys == students.Keys
    ensures forall s :: s in r ==>
      r[s] == if students[s].branch == Some(b) then students[s].(branch := None) else students[s]
    ensures forall s :: s in r ==> r[s].branch != Some(b)
    ensures RollNumbersUnique(students) ==> RollNumbersUnique(r)
  {
    var r := map s | s in students :: if students[s].branch == Some(b) then students[s].(branch := None) else students[s];
    ClearBranchKeepsRollNumbers(students, b, r);
    r
  }

  /** Removing a branch that no subject refers to, and clearing it from the students, keeps the schema. */
  lemma RemoveBranchKeepsValid(db: Db, b: BranchId)
    requires forall s :: s in db.subjects ==> db.subjects[s].branch != b
    ensures Valid(db) ==> Valid(db.(branches := db.branches - {b}, students := ClearBranch(db.students, b)))
  {
    if Valid(db) {
      var r := db.(branches := db.branches - {b}, students := ClearBranch(db.students, b));
      ClearBranchKeepsReferences(db, b, r);
      assert BranchNamesUnique(r.branches);
      assert ChoicesInRange(r);
      assert r.subjects == db.subjects && r.sessions == db.sessions && r.attendance == db.attendance;
    }
  }

  lemma ClearBranchKeepsRollNumbers(students: map<StudentId, Student>, b: BranchId, r: map<StudentId, Student>)
    requires r == map s | s in students :: if students[s].branch == Some(b) then students[s].(branch := None) else students[s]
    ensures RollNumbersUnique(students) ==> RollNumbersUnique(r)
  {
    if RollNumbersUnique(students) {
      forall s1, s2 | s1 in r && s2 in r && r[s1].rollNo == r[s2].rollNo
        ensures s1 == s2
      {
        assert students[s1].rollNo == students[s2].rollNo;
      }
    }
  }

  lemma ClearBranchKeepsReferences(db: Db, b: BranchId, r: Db)
    requires ReferencesResolve(db) && CountersAhead(db)
    requires forall s :: s in db.subjects ==> db.subjects[s].branch != b
    requires r == db.(branches := db.branches - {b}, students := ClearBranch(db.students, b))
    ensures ReferencesResolve(r) && CountersAhead(r)
  {
    forall s | s in r.students
      ensures r.students[s].branch.Some? ==> r.students[s].branch.value in r.branches
      ensures r.students[s].subjects <= r.subjects.Keys
    {
      assert s in db.students;
    }
  }

  /** The subjects of branch `b`. */
  function SubjectsOf(subjects: map<SubjectId, Subject>, b: BranchId): set<SubjectId> {
    set s | s in subjects && subjects[s].branch == b
  }

  /**
   * Deleting a Branch deletes its subjects (`Subject.branch` is CASCADE, and
   * so on down to sessions and their Attendance rows) but only clears the
   * branch of its students (`Student.branch` is SET_NULL): no student is deleted.
   */
  function DeleteBranch(db: Db, b: BranchId): (r: Db)
    ensures Valid(db) ==> Valid(r)
    ensures b !in r.branches && r.branches.Keys == db.branches.Keys - {b}
    ensures forall x :: x in r.branches ==> r.branches[x] == db.branches[x]
    ensures forall s :: s in r.subjects <==> s in db.subjects && db.subjects[s].branch != b
    ensures forall s :: s in r.subjects ==> r.subjects[s] == db.subjects[s]
    ensures forall q :: q in r.sessions <==> q in db.sessions && db.sessions[q].subject !in SubjectsOf(db.subjects, b)
    ensures forall q :: q in r.sessions ==> r.sessions[q] == db.sessions[q]
    ensures forall a :: a in r.attendance <==>
      a in db.attendance && db.attendance[a].session !in SessionsOf(db.sessions, SubjectsOf(db.subjects, b))
    ensures forall a :: a in r.attendance ==> r.attendance[a] == db.attendance[a]
    ensures r.students.Keys == db.students.Keys
    ensures forall s :: s in r.students ==>
      r.students[s] == db.students[s].(
        subjects := db.students[s].subjects - SubjectsOf(db.subjects, b),
        branch := if db.students[s].branch == Some(b) then None else db.students[s].branch)
    ensures r.nextSession == db.nextSession && r.nextAttendance == db.nextAttendance
  {
    var gone := SubjectsOf(db.subjects, b);
    var d := DeleteSubjects(db, gone);
    RemoveBranchKeepsValid(d, b);
    d.(branches := d.branches - {b}, students := ClearBranch(d.students, b))
  }
}
