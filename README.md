# qr_attendance in Dafny

A model of the core of the qr_attendance classroom tracker, a Django app, with
proofs about it. A teacher opens a time-boxed attendance session for a subject
(`generate_qr`). Students submit their roll number against that session and confirm
(`attendance_form`). Each confirmation adds one row to the attendance ledger. The
dashboard shows, for a subject and a day, every enrolled student as present or
absent (`attendance_dashboard`).

The database is one value `Models.Db`. It holds one map per table, from primary
key to row, plus the auto-increment counters of the two tables the core inserts
into. `Models.Valid` is the invariant every operation keeps. It holds:

- the unique fields `Branch.name`, `Subject.code`, `Student.roll_no` and
  `QRSession.token`, and `unique_together` on (student, qr_session), which the
  database enforces;
- every reference resolves, as the foreign keys require;
- the `choices` of year and semester. Django checks these only in model and
  form validation; neither the database nor `objects.create` enforces them;
- the counters lie above every key already issued. This condition belongs to
  the model: it is how the model knows that a new key is fresh. qr_app/models.py
  does not declare it.

Modules, in dependency order:

- `Wrappers`: `Option`.
- `RollOrder`: the code-point order of roll numbers, and the lemmas showing it
  is a total order. It stands in for the order `order_by("roll_no")` sorts by,
  which follows the database's collation.
- `Models`: rows, the database, the schema constraints, the roll-number lookup
  and the `on_delete` cascades.
- `Sessions`: expiry and session creation (`generate_qr`).
- `Redemption`: the redemption state machine (`attendance_form`) as a
  function from a database and one request to a page and a new database.
- `Dashboard`: the roll call of `attendance_dashboard`.
- `Server`: the same views written as methods of a `Store` class, whose fields
  are the tables and which inserts rows step by step. Each method is proved to
  leave the store exactly as the matching function says. `Scenario` runs a
  class through it: open, mark, mark again, an unknown roll number, too late.

Time is an integer number of seconds. A date is a whole number of days, and
`DateOf(t) = t / 86400`. The clock value `now` is a parameter of every operation.
Form fields arrive already parsed, as `Option` values, with `None` for a field
that is absent.

Where the code and the system's intended design disagree, the model follows
the code:

- The session is looked up by its numeric id (qr_app/views.py:147), not by token.
- There is no date-of-birth check.
- The duration is not validated against a range. Any integer number of
  minutes within datetime's range is accepted, including zero and negative
  ones, so `expires_at > created_at` holds only when the duration is positive
  (`Sessions.WindowOfCreatedSession`). A duration that takes the expiry
  outside that range is not modelled; see Left out.
- The token is never set. See Findings.

## Model

| member | source | states |
|---|---|---|
| Models.DateOf | qr_app/views.py:215-218 | the day of a timestamp is the unique `d` with `d*86400 <= t < (d+1)*86400`, which is what `timestamp__date` compares |
| Models.RollLookupAtMostOne | qr_app/models.py:26 | with unique roll numbers, at most one student carries a given roll number |
| Models.AtMostOneRecordPerPair | qr_app/models.py:62-63 | under `unique_together`, the ledger holds at most one row per (student, session), and exactly one iff the pair is marked |
| Models.FindByRoll | qr_app/views.py:155-156 | `Student.objects.get(roll_no=...)`: a result is a student with that roll number; no result means no student has it (DoesNotExist), including when the field is absent |
| Models.DropRecordsShrinks | qr_app/models.py:58-59 | a cascade never adds a ledger row: the ledger does not grow, and one row per (student, session) still holds |
| Models.DeleteSession | qr_app/models.py:59 | deleting a session removes exactly its attendance rows, keeps every other row and table, and preserves the schema |
| Models.DeleteStudent | qr_app/models.py:58 | deleting a student removes exactly its attendance rows, keeps everything else, and preserves the schema |
| Models.DeleteSubjects | qr_app/models.py:48 | deleting subjects removes exactly their sessions and those sessions' rows, drops the enrolments, leaves other rows unchanged, and preserves the schema |
| Models.DeleteSubjectsKeepsValid | qr_app/models.py:48 | the cascade from deleting subjects leaves a database satisfying every schema constraint |
| Models.DeleteSubject | qr_app/models.py:48 | after deleting one subject, no session, attendance row or enrolment refers to it; every other subject, session and attendance row stays unchanged; students keep every field except that enrolment; the counters stay; the schema holds |
| Models.ClearBranch | qr_app/models.py:36 | SET_NULL: afterwards no student belongs to the branch, no student is removed, and roll numbers stay unique |
| Models.RemoveBranchKeepsValid | qr_app/models.py:36 | removing a branch no subject refers to, and nulling it in the students, keeps the schema |
| Models.DeleteBranch | qr_app/models.py:18-36 | deleting a branch removes exactly its subjects (CASCADE), their sessions and those sessions' attendance rows, and keeps every other branch, subject, session and row unchanged. Every student stays; each keeps all its fields except the enrolments in the branch's subjects, and its branch is nulled if it was this one (SET_NULL). The counters stay, and the schema holds |
| Sessions.ExpiryBoundary | qr_app/views.py:148 | a session is still open at `now == expires_at` and expired one second later |
| Sessions.ExpiryIsPermanent | qr_app/views.py:148 | once expired, a session stays expired at every later instant |
| Sessions.StoreSessionKeepsValid | qr_app/models.py:47-51 | inserting a session for an existing subject with an unused token keeps the schema and adds exactly one row |
| Sessions.CreateSessionWithToken | qr_app/views.py:87-100 | GET shows the form; a missing or unknown subject is a 404; a token already stored is refused by the unique constraint; otherwise one session with `created_at = now` and `expires_at = now + duration*60` (duration 5 by default) is added under a fresh id, and nothing else changes |
| Sessions.CreateSessionKeepsValid | qr_app/views.py:95-100 | whatever the request, the database after session creation satisfies the schema |
| Sessions.CreatedPath | qr_app/views.py:95-98 | with an existing subject and an unused token, the outcome is `Created(next id)` and the new row holds exactly the window `[now, now + minutes*60]` |
| Sessions.RefusedPath | qr_app/models.py:49 | with a token already stored, the outcome is IntegrityError and the database is unchanged |
| Sessions.GenerateQr | qr_app/views.py:95-100 | `generate_qr` as written stores every session with the empty token, and once an empty token is stored it never creates another session |
| Sessions.WindowOfCreatedSession | qr_app/views.py:91-98 | a created session expires after its creation iff the duration is positive, and it is open exactly up to `now + duration` minutes |
| Sessions.SecondGenerateQrFails | qr_app/models.py:49 | as written, after one successful `generate_qr`, every later POST for an existing subject ends in IntegrityError and leaves the database unchanged |
| Sessions.SecondGenerateQrFailsExample | qr_app/views.py:95-100 | on a concrete database the first call creates session 0 and the second, a minute later, is refused |
| Sessions.FreshTokensAlwaysCreate | qr_app/models.py:49 | with distinct, unused tokens, two successive creations for existing subjects both succeed |
| Redemption.RecordKeepsValid | qr_app/views.py:165 | inserting the (student, session) row for a known, unmarked pair keeps the schema, including `unique_together`, and grows the ledger by exactly one |
| Redemption.InsertKeepsPairsUnique | qr_app/models.py:62-63 | adding a row for an unmarked pair under a new key keeps pairs unique |
| Redemption.Redeem | qr_app/views.py:146-185 | unknown session id: 404. GET or expired: bare form with the `expired` flag and no message. No such roll number: "Invalid Roll No". Pair already marked: "already marked", whatever `confirm` says. Otherwise: the confirmation page without `confirm == "yes"` and Success with it (each case iff). Only Success changes the database, and it adds exactly the row (student, session, now) and nothing else |
| Redemption.RedeemTwice | qr_app/views.py:159-165 | resubmitting a committed redemption changes nothing: it answers "already marked" while the session is open and the expired form afterwards, and the ledger keeps its size |
| Redemption.RedeemAll | qr_app/views.py:146-185 | any sequence of submissions, handled one after another, leaves a database satisfying the schema |
| Redemption.RedeemAllKeepsOneRecordPerPair | qr_app/models.py:62-63 | after any sequence of submissions the ledger holds at most one row per (student, session), and no row is ever removed |
| Dashboard.RedeemMarksPresent | qr_app/views.py:215-220 | a committed redemption (views.py:165) puts its student in `present_ids` for the session's subject on the day of `now`. No other student, subject or day changes, and no other outcome changes `present_ids` |
| Dashboard.RecordMarksPresent | qr_app/views.py:215-220 | inserting one attendance row under a fresh key adds exactly its (student, subject, day) to the presences |
| Dashboard.FirstByRollExists | qr_app/views.py:212 | every non-empty set of students has one with the smallest roll number |
| Dashboard.SortedByRoll | qr_app/views.py:212 | `order_by("roll_no")` lists each of the students exactly once, in strictly increasing roll-number order |
| Dashboard.RollCall | qr_app/views.py:212-233 | one row per enrolled student with its roll number and name, in strictly increasing roll-number order; Present iff the student has a record for a session of that subject on that date |
| Dashboard.RollCallHasNoDuplicates | qr_app/views.py:212 | no student appears twice in a roll call |
| Dashboard.AttendanceDashboard | qr_app/views.py:203-212 | no subject parameter: no rows; an unknown subject id: the error `Subject.objects.get` raises; otherwise the roll call |
| Server.Store.constructor | qr_app/models.py:5-63 | a store over a database satisfying the schema |
| Server.Store.CreateAttendance | qr_app/views.py:165 | the database refuses a pair already marked; otherwise it stores the row under the next id; the schema holds afterwards |
| Server.Store.CreateSession | qr_app/views.py:95-100 | the database refuses a token already stored; otherwise it stores the row under the next id; the schema holds afterwards |
| Server.Store.OpenSession | qr_app/views.py:92-100 | the POST of `generate_qr` after the subject is found, leaving the store as `CreateSessionWithToken` says |
| Server.Store.IssueSession | qr_app/views.py:87-100 | `generate_qr` with a supplied token: page and new store exactly as `CreateSessionWithToken` |
| Server.Store.GenerateQr | qr_app/views.py:87-100 | `generate_qr` as written: page and new store exactly as `Sessions.GenerateQr` |
| Server.Store.Redeem | qr_app/views.py:146-185 | `attendance_form` step by step: page and new store exactly as `Redemption.Redeem` |
| Server.OpenStep | qr_app/views.py:95-98 | a five-minute session opened at `t0` is session 0, open until `t0 + 300` |
| Server.MarkStep | qr_app/views.py:164-170 | CS001 confirming a minute in gets Success and exactly one row |
| Server.AgainStep | qr_app/views.py:159-161 | CS001 again is told "already marked" and nothing changes |
| Server.UnknownStep | qr_app/views.py:178-179 | ZZ999 gets "Invalid Roll No" and nothing changes |
| Server.LateStep | qr_app/views.py:148-151 | CS002 six minutes in gets the expired form and nothing changes |
| Server.Scenario | qr_app/views.py:146-185 | the class scenario through the store: Created, Success, already marked, invalid roll number, expired; one row stored |

## Left out

- QR image generation, base64 encoding and the server-IP lookup through a UDP socket (qr_app/views.py:102-112): foreign libraries and network I/O. The model returns the new session's id, which the QR URL embeds.
- HTML rendering, the CSV and PDF exports (qr_app/views.py:222-273) and JSON responses: presentation only. The roll-call rows they print are modelled.
- The unreachable AJAX branch after the `return` in `generate_qr` (qr_app/views.py:121-129), and `attendance_qrlive`, which writes fields the schema does not have.
- Parsing of form and query strings, and of the URL path parameter. A non-numeric `duration` or subject id makes Django raise before any database write. qr_app/urls.py:26 routes `<str:token>`, so a non-numeric session id makes `get_object_or_404(QRSession, id=token)` raise ValueError (a server error, not a 404). The model takes all of these already parsed, with the session id as a number.
- Date-string parsing and its fallback to today (qr_app/views.py:206-209), and time zones: the selected date is an integer day and `DateOf` is a UTC day. Each request uses a single `now`, but Django reads the clock several times. In `generate_qr` the `created_at` value passed at qr_app/views.py:97 is discarded, because `auto_now_add=True` (qr_app/models.py:50) stamps Django's own reading at save time; `expires_at` uses yet another reading. In `attendance_form`, `Attendance.timestamp` (qr_app/models.py:60) is a reading separate from the expiry check at qr_app/views.py:148. The model treats all of these as one instant.
- The race between the `exists()` check and `create()` in `attendance_form`: only sequential requests are modelled. A concurrent duplicate would hit the `unique_together` constraint, which `Server.Store.CreateAttendance` models as a refusal.
- Sessions.CreateSessionWithToken: `Time` is an unbounded integer, so datetime's range (years 1 to 9999) and `timedelta`'s limit of 999999999 days are not modelled. A duration that leaves that range (OverflowError, a server error, and no row in Django) creates a session in the model.
- Server.Store.CreateAttendance and Server.Store.CreateSession: a database refusal (`IntegrityError`) is an error page in Django. In the model it is only a returned flag.
- Redemption.Redeem: requires the whole `Models.Valid`, including the year and semester `choices`, which the database does not enforce and `attendance_form` never reads. A database with an out-of-range year or semester is handled the same way by the view but is outside the contract.
- Redemption.RedeemAll: the same precondition as `Redemption.Redeem`, for the same reason.
- String collation: roll numbers are ordered by code point, not by the database's collation. `max_length` limits on text fields are not modelled.
- Authentication, admin, URL routing, forms, the browser script, tests, and the other list and dashboard views (`dashboard`, `attendance_faculty`, the student and subject lists).

## Findings

| source | as written | input that shows it | evidently intended | confidence | as-written member | corrected member |
|---|---|---|---|---|---|---|
| qr_app/views.py:95-100 | `QRSession.objects.create` never sets `token`, so every session gets the CharField default `''`, while qr_app/models.py:49 declares `token` unique | any POST to `generate_qr` naming an existing subject, once a session with the empty token exists, i.e. after one successful `generate_qr` (a session created elsewhere, for example in the admin, with a non-empty token does not block it) | each session gets a fresh unique token, so every creation for an existing subject succeeds | not executed; assumes the database schema matches qr_app/models.py | Sessions.SecondGenerateQrFails | Sessions.FreshTokensAlwaysCreate |
