/**
 * The roll call of `attendance_dashboard` (qr_app/views.py): for a subject and
 * a day, every student enrolled in the subject, in roll-number order, marked
 * Present when the ledger holds a record for a session of that subject whose
 * timestamp falls on that day, and Absent otherwise. The CSV and PDF exports
 * print exactly these rows.
 */
module Dashboard {
  import opened Wrappers
  import opened Models
  import RollOrder
  import Redemption

  datatype Status = Present | Absent

  /** One line of the sheet: roll number, name and status of one student. */
  datatype RollRow = RollRow(student: StudentId, rollNo: string, name: string, status: Status)

  /** `Student.objects.filter(subjects=subject)`. */
  function Enrolled(db: Db, subject: SubjectId): set<StudentId> {
    set s | s in db.students && subject in db.students[s].subjects
  }

  /** The ledger holds a record of `st` for a session of `subject` stamped on `date`. */
  ghost predicate AttendedOn(db: Db, st: StudentId, subject: SubjectId, date: Date) {
    exists a :: a in db.attendance && db.attendance[a].student == st &&
      db.attendance[a].session in db.sessions &&
      db.sessions[db.attendance[a].session].subject == subject &&
      DateOf(db.attendance[a].timestamp) == date
  }

  /**
   * `present_ids`: the students of the records selected by
   * `qr_session__subject=subject, timestamp__date=date`.
   */
  function PresentIds(db: Db, subject: SubjectId, date: Date): (r: set<StudentId>)
    ensures forall st :: st in r <==> AttendedOn(db, st, subject, date)
  {
    var r := set a | a in db.attendance &&
                     db.attendance[a].session in db.sessions &&
                     db.sessions[db.attendance[a].session].subject == subject &&
                     DateOf(db.attendance[a].timestamp) == date
                  :: db.attendance[a].student;
    assert forall st :: AttendedOn(db, st, subject, date) ==> st in r;
    r
  }

  /**
   * A committed redemption makes its student present for the session's
   * subject on the day of `now`, and changes no other student's, subject's or
   * day's presence; any other outcome changes no presence at all.
   */
  lemma RedeemMarksPresent(db: Db, sessionId: SessionId, now: Time, isPost: bool,
                           rollNo: Option<string>, confirm: Option<string>,
                           subject: SubjectId, date: Date, x: StudentId)
    requires Valid(db)
    ensures var r := Redemption.Redeem(db, sessionId, now, isPost, rollNo, confirm);
      r.0.SuccessPage? ==>
        (x in PresentIds(r.1, subject, date) <==>
          x in PresentIds(db, subject, date) ||
          (x == r.0.student && subject == r.0.subject && date == DateOf(now)))
    ensures var r := Redemption.Redeem(db, sessionId, now, isPost, rollNo, confirm);
      !r.0.SuccessPage? ==> PresentIds(r.1, subject, date) == PresentIds(db, subject, date)
  {
    var r := Redemption.Redeem(db, sessionId, now, isPost, rollNo, confirm);
    if r.0.SuccessPage? {
      assert r.1 == Redemption.Record(db, r.0.student, sessionId, now);
      RecordMarksPresent(db, r.0.student, sessionId, now, subject, date, x);
    }
  }

  /** Inserting one fresh Attendance row adds exactly its (student, subject, day) to the presences. */
  lemma RecordMarksPresent(db: Db, st: StudentId, q: SessionId, now: Time, subject: SubjectId, date: Date, x: StudentId)
    requires q in db.sessions && db.nextAttendance !in db.attendance
    ensures x in PresentIds(Redemption.Record(db, st, q, now), subject, date) <==>
      x in PresentIds(db, subject, date) ||
      (x == st && subject == db.sessions[q].subject && date == DateOf(now))
  {
    var r := Redemption.Record(db, st, q, now);
    var n := db.nextAttendance;
    if AttendedOn(r, x, subject, date) {
      var a :| a in r.attendance && r.attendance[a].student == x &&
        r.attendance[a].session in r.sessions &&
        r.sessions[r.attendance[a].session].subject == subject &&
        DateOf(r.attendance[a].timestamp) == date;
      if a != n {
        assert a in db.attendance && r.attendance[a] == db.attendance[a];
        assert AttendedOn(db, x, subject, date);
      }
    }
    if AttendedOn(db, x, subject, date) {
      var a :| a in db.attendance && db.attendance[a].student == x &&
        db.attendance[a].session in db.sessions &&
        db.sessions[db.attendance[a].session].subject == subject &&
        DateOf(db.attendance[a].timestamp) == date;
      assert a != n && r.attendance[a] == db.attendance[a];
      assert AttendedOn(r, x, subject, date);
    }
    if x == st && subject == db.sessions[q].subject && date == DateOf(now) {
      assert r.attendance[n] == Attendance(st, q, now);
      assert AttendedOn(r, x, subject, date);
    }
  }

  /** `m` has the smallest roll number among `ids`. */
  predicate IsFirstByRoll(students: map<StudentId, Student>, ids: set<StudentId>, m: StudentId)
    requires ids <= students.Keys
  {
    m in ids && forall x :: x in ids ==> RollOrder.Le(students[m].rollNo, students[x].rollNo)
  }

  /** A non-empty set of students has one with the smallest roll number. */
  lemma {:induction false} FirstByRollExists(students: map<StudentId, Student>, ids: set<StudentId>)
    requires ids <= students.Keys && ids != {}
    ensures exists m :: IsFirstByRoll(students, ids, m)
    decreases ids
  {
    var x :| x in ids;
    if ids == {x} {
      RollOrder.LeReflexive(students[x].rollNo);
      assert IsFirstByRoll(students, ids, x);
    } else {
      FirstByRollExists(students, ids - {x});
      var m :| IsFirstByRoll(students, ids - {x}, m);
      RollOrder.LeTotal(students[m].rollNo, students[x].rollNo);
      if RollOrder.Le(students[m].rollNo, students[x].rollNo) {
        assert IsFirstByRoll(students, ids, m);
      } else {
        RollOrder.LeReflexive(students[x].rollNo);
        forall y | y in ids
          ensures RollOrder.Le(students[x].rollNo, students[y].rollNo)
        {
          if y != x {
            RollOrder.LeTransitive(students[x].rollNo, students[m].rollNo, students[y].rollNo);
          }
        }
        assert IsFirstByRoll(students, ids, x);
      }
    }
  }

  /** With unique roll numbers, the student with the smallest one is determined. */
  lemma FirstByRollUnique(students: map<StudentId, Student>, ids: set<StudentId>)
    requires ids <= students.Keys && RollNumbersUnique(students)
    ensures forall m1, m2 :: IsFirstByRoll(students, ids, m1) && IsFirstByRoll(students, ids, m2) ==> m1 == m2
  {
    forall m1, m2 | IsFirstByRoll(students, ids, m1) && IsFirstByRoll(students, ids, m2)
      ensures m1 == m2
    {
      RollOrder.LeAntisymmetric(students[m1].rollNo, students[m2].rollNo);
    }
  }

  /** `order_by("roll_no")`: the students `ids`, each once, in increasing roll-number order. */
  function SortedByRoll(students: map<StudentId, Student>, ids: set<StudentId>): (r: seq<StudentId>)
    requires ids <= students.Keys && RollNumbersUnique(students)
    ensures |r| == |ids|
    ensures forall i :: 0 <= i < |r| ==> r[i] in ids
    ensures forall x :: x in ids ==> x in r
    ensures forall i, j :: 0 <= i < j < |r| ==> RollOrder.Lt(students[r[i]].rollNo, students[r[j]].rollNo)
    decreases ids
  {
    if ids == {} then []
    else
      FirstByRollExists(students, ids);
      FirstByRollUnique(students, ids);
      var m :| IsFirstByRoll(students, ids, m);
      var rest := SortedByRoll(students, ids - {m});
      PrependFirst(students, ids, m, rest);
      [m] + rest
  }

  /** Putting the first student by roll number before the sorted others sorts them all. */
  lemma PrependFirst(students: map<StudentId, Student>, ids: set<StudentId>, m: StudentId, rest: seq<StudentId>)
    requires ids <= students.Keys && RollNumbersUnique(students) && IsFirstByRoll(students, ids, m)
    requires |rest| == |ids - {m}|
    requires forall i :: 0 <= i < |rest| ==> rest[i] in ids - {m}
    requires forall x :: x in ids - {m} ==> x in rest
    requires forall i, j :: 0 <= i < j < |rest| ==> RollOrder.Lt(students[rest[i]].rollNo, students[rest[j]].rollNo)
    ensures |[m] + rest| == |ids|
    ensures forall i :: 0 <= i < |[m] + rest| ==> ([m] + rest)[i] in ids
    ensures forall x :: x in ids ==> x in [m] + rest
    ensures forall i, j :: 0 <= i < j < |[m] + rest| ==>
      RollOrder.Lt(students[([m] + rest)[i]].rollNo, students[([m] + rest)[j]].rollNo)
  {
    var r := [m] + rest;
    forall j | 0 <= j < |rest|
      ensures RollOrder.Lt(students[m].rollNo, students[rest[j]].rollNo)
    {
      assert rest[j] in ids && rest[j] != m;
    }
    forall i, j | 0 <= i < j < |r|
      ensures RollOrder.Lt(students[r[i]].rollNo, students[r[j]].rollNo)
    {
      if i > 0 {
        assert r[i] == rest[i - 1] && r[j] == rest[j - 1];
      }
    }
  }

  /** The sheet line of student `st`, given who is present. */
  function RowFor(db: Db, st: StudentId, present: set<StudentId>): RollRow
    requires st in db.students
  {
    RollRow(st, db.students[st].rollNo, db.students[st].name, if st in present then Present else Absent)
  }

  /** The roll-call rows for `subject` on `date`. */
  function RollCall(db: Db, subject: SubjectId, date: Date): (rows: seq<RollRow>)
    requires RollNumbersUnique(db.students)
    // Exactly one row per enrolled student ...
    ensures |rows| == |Enrolled(db, subject)|
    ensures forall st :: st in db.students && subject in db.students[st].subjects ==>
      exists i :: 0 <= i < |rows| && rows[i].student == st
    ensures forall i :: 0 <= i < |rows| ==>
      rows[i].student in db.students && subject in db.students[rows[i].student].subjects &&
      rows[i].rollNo == db.students[rows[i].student].rollNo &&
      rows[i].name == db.students[rows[i].student].name
    // ... in strictly increasing roll-number order, so no student twice ...
    ensures forall i, j :: 0 <= i < j < |rows| ==> RollOrder.Lt(rows[i].rollNo, rows[j].rollNo)
    // ... and Present exactly for those with a record on that day.
    ensures forall i :: 0 <= i < |rows| ==>
      (rows[i].status == Present <==> AttendedOn(db, rows[i].student, subject, date))
  {
    var order := SortedByRoll(db.students, Enrolled(db, subject));
    var present := PresentIds(db, subject, date);
    var rows := seq(|order|, i requires 0 <= i < |order| => RowFor(db, order[i], present));
    RollCallRows(db, subject, date, order, rows);
    rows
  }

  lemma RollCallRows(db: Db, subject: SubjectId, date: Date, order: seq<StudentId>, rows: seq<RollRow>)
    requires RollNumbersUnique(db.students)
    requires order == SortedByRoll(db.students, Enrolled(db, subject))
    requires |rows| == |order|
    requires forall i :: 0 <= i < |order| ==> rows[i] == RowFor(db, order[i], PresentIds(db, subject, date))
    ensures |rows| == |Enrolled(db, subject)|
    ensures forall st :: st in db.students && subject in db.students[st].subjects ==>
      exists i :: 0 <= i < |rows| && rows[i].student == st
    ensures forall i :: 0 <= i < |rows| ==>
      rows[i].student in db.students && subject in db.students[rows[i].student].subjects &&
      rows[i].rollNo == db.students[rows[i].student].rollNo &&
      rows[i].name == db.students[rows[i].student].name
    ensures forall i, j :: 0 <= i < j < |rows| ==> RollOrder.Lt(rows[i].rollNo, rows[j].rollNo)
    ensures forall i :: 0 <= i < |rows| ==>
      (rows[i].status == Present <==> AttendedOn(db, rows[i].student, subject, date))
  {
    var enrolled := Enrolled(db, subject);
    var present := PresentIds(db, subject, date);
    forall i | 0 <= i < |rows|
      ensures rows[i].student == order[i] && order[i] in enrolled
      ensures rows[i].rollNo == db.students[order[i]].rollNo && rows[i].name == db.students[order[i]].name
      ensures rows[i].status == Present <==> order[i] in present
    {
    }
    forall st | st in db.students && subject in db.students[st].subjects
      ensures exists i :: 0 <= i < |rows| && rows[i].student == st
    {
      assert st in enrolled;
      var i :| 0 <= i < |order| && order[i] == st;
      assert rows[i].student == st;
    }
  }

  /** Two rows of a roll call never name the same student. */
  lemma RollCallHasNoDuplicates(db: Db, subject: SubjectId, date: Date, i: int, j: int)
    requires RollNumbersUnique(db.students)
    requires 0 <= i < j < |RollCall(db, subject, date)|
    ensures RollCall(db, subject, date)[i].student != RollCall(db, subject, date)[j].student
  {
  }

  /** The page `attendance_dashboard` answers with. */
  datatype Sheet =
    | NoSubjectChosen            // no `subject` parameter: no rows
    | SubjectDoesNotExist        // `Subject.objects.get` raises: HTTP 500
    | Rows(rows: seq<RollRow>)

  /** `attendance_dashboard` for an optional subject id and an already parsed date. */
  function AttendanceDashboard(db: Db, subjectId: Option<SubjectId>, date: Date): (r: Sheet)
    requires RollNumbersUnique(db.students)
    ensures r == NoSubjectChosen <==> subjectId.None?
    ensures r == SubjectDoesNotExist <==> subjectId.Some? && subjectId.value !in db.subjects
    ensures r.Rows? ==> subjectId.Some? && r.rows == RollCall(db, subjectId.value, date)
  {
    match subjectId
    case None => NoSubjectChosen
    case Some(s) => if s in db.subjects then Rows(RollCall(db, s, date)) else SubjectDoesNotExist
  }
}
