/**
 * The session manager of qr_app/views.py: `generate_qr` creates a QRSession
 * for a subject with a validity window, and a session is expired once the
 * clock has passed its `expires_at`.
 */
module Sessions {
  import opened Wrappers
  import opened Models

  /** Minutes a session stays open when the form sends no duration. */
  const DefaultDuration: int := 5

  /** `QRSession.token` when nothing sets it: the empty default of a CharField. */
  const UnsetToken: string := ""

  /** `timezone.now() > session.expires_at`. */
  predicate IsExpired(s: QRSession, now: Time) {
    now > s.expiresAt
  }

  /** A session is still open at the very instant of its expiry and closed one second later. */
  lemma ExpiryBoundary(s: QRSession)
    ensures !IsExpired(s, s.expiresAt)
    ensures IsExpired(s, s.expiresAt + 1)
  {
  }

  /** Once expired, a session stays expired: the window is an interval ending at `expires_at`. */
  lemma ExpiryIsPermanent(s: QRSession, t1: Time, t2: Time)
    requires t1 <= t2 && IsExpired(s, t1)
    ensures IsExpired(s, t2)
  {
  }

  /** The page `generate_qr` answers with. */
  datatype CreateOutcome =
    | FormShown                  // a GET: the form, nothing created
    | SubjectNotFound            // `get_object_or_404` fails: HTTP 404
    | IntegrityError             // the database refuses the row: duplicate token
    | Created(session: SessionId)

  /** Some stored session already carries `token`. */
  predicate TokenInUse(sessions: map<SessionId, QRSession>, token: string) {
    exists q :: q in sessions && sessions[q].token == token
  }

  /** The INSERT of a session row under the next id. */
  function StoreSession(db: Db, session: QRSession): (r: Db)
    ensures r.sessions.Keys == db.sessions.Keys + {db.nextSession}
    ensures r.sessions[db.nextSession] == session
    ensures forall p :: p in db.sessions && p != db.nextSession ==> r.sessions[p] == db.sessions[p]
    ensures r.branches == db.branches && r.subjects == db.subjects &&
      r.students == db.students && r.attendance == db.attendance
  {
    db.(sessions := db.sessions[db.nextSession := session], nextSession := db.nextSession + 1)
  }

  /**
   * When the subject exists and the token is new, the schema still holds after
   * the INSERT, which adds exactly one row.
   */
  lemma StoreSessionKeepsValid(db: Db, session: QRSession)
    requires Valid(db) && session.subject in db.subjects && !TokenInUse(db.sessions, session.token)
    ensures Valid(StoreSession(db, session))
    ensures db.nextSession !in db.sessions && |StoreSession(db, session).sessions| == |db.sessions| + 1
  {
    var r := StoreSession(db, session);
    assert db.nextSession !in db.sessions;
    InsertKeepsTokensUnique(db.sessions, db.nextSession, session);
    InsertSessionKeepsReferences(db, session, r);
    SizeAfterInsert(db.sessions, db.nextSession, session);
  }

  lemma InsertKeepsTokensUnique(m: map<SessionId, QRSession>, n: SessionId, session: QRSession)
    requires TokensUnique(m) && n !in m && !TokenInUse(m, session.token)
    ensures TokensUnique(m[n := session])
  {
    var m' := m[n := session];
    forall q1, q2 | q1 in m' && q2 in m' && m'[q1].token == m'[q2].token
      ensures q1 == q2
    {
      assert q1 != n ==> q1 in m && m'[q1] == m[q1];
      assert q2 != n ==> q2 in m && m'[q2] == m[q2];
    }
  }

  lemma InsertSessionKeepsReferences(db: Db, session: QRSession, r: Db)
    requires r == db.(sessions := db.sessions[db.nextSession := session], nextSession := db.nextSession + 1)
    requires ReferencesResolve(db) && CountersAhead(db) && session.subject in db.subjects
    ensures ReferencesResolve(r) && CountersAhead(r)
  {
    forall q | q in r.sessions
      ensures r.sessions[q].subject in r.subjects && q < r.nextSession
    {
      if q != db.nextSession {
        assert q in db.sessions && r.sessions[q] == db.sessions[q];
      }
    }
    forall a | a in r.attendance
      ensures r.attendance[a].session in r.sessions
    {
      assert a in db.attendance;
    }
  }

  /**
   * `QRSession.objects.create(...)` for a subject, a duration in minutes and a
   * token, as the database runs it: the row gets the next id, `created_at = now`
   * and `expires_at = now + duration` minutes; a token some stored session
   * already has violates the unique constraint and nothing is stored. Before
   * that, a GET only shows the form, and a missing or unknown subject id is a 404.
   * The duration is not validated: zero or a negative number is accepted.
   */
  function CreateSessionWithToken(db: Db, isPost: bool, subjectId: Option<SubjectId>, duration: Option<int>, now: Time, token: string): (r: (CreateOutcome, Db))
    ensures !r.0.Created? ==> r.1 == db
    ensures r.0 == FormShown <==> !isPost
    ensures r.0 == SubjectNotFound <==> isPost && (subjectId.None? || subjectId.value !in db.subjects)
    ensures r.0 == IntegrityError <==>
      isPost && subjectId.Some? && subjectId.value in db.subjects && TokenInUse(db.sessions, token)
    ensures r.0.Created? ==>
      r.0.session in r.1.sessions &&
      r.1.sessions[r.0.session] ==
        QRSession(subjectId.value, token, now, now + duration.GetOr(DefaultDuration) * SecondsPerMinute) &&
      r.1 == StoreSession(db, r.1.sessions[r.0.session]) &&
      (Valid(db) ==> r.0.session !in db.sessions)
  {
    if !isPost then (FormShown, db)
    else if subjectId.None? || subjectId.value !in db.subjects then (SubjectNotFound, db)
    else if TokenInUse(db.sessions, token) then (IntegrityError, db)
    else
      var minutes := duration.GetOr(DefaultDuration);
      var session := QRSession(subjectId.value, token, now, now + minutes * SecondsPerMinute);
      (Created(db.nextSession), StoreSession(db, session))
  }

  /** Whatever the request, the database `CreateSessionWithToken` leaves behind satisfies the schema. */
  lemma CreateSessionKeepsValid(db: Db, isPost: bool, subjectId: Option<SubjectId>, duration: Option<int>, now: Time, token: string)
    requires Valid(db)
    ensures Valid(CreateSessionWithToken(db, isPost, subjectId, duration, now, token).1)
  {
    var r := CreateSessionWithToken(db, isPost, subjectId, duration, now, token);
    if r.0.Created? {
      StoreSessionKeepsValid(db, r.1.sessions[r.0.session]);
    }
  }

  /** The successful path of `CreateSessionWithToken`, unfolded. */
  lemma CreatedPath(db: Db, subject: SubjectId, minutes: int, now: Time, token: string)
    requires subject in db.subjects && !TokenInUse(db.sessions, token)
    ensures CreateSessionWithToken(db, true, Some(subject), Some(minutes), now, token) ==
      (Created(db.nextSession), StoreSession(db, QRSession(subject, token, now, now + minutes * SecondsPerMinute)))
  {
  }

  /** The path of `CreateSessionWithToken` where the token is taken. */
  lemma RefusedPath(db: Db, subject: SubjectId, minutes: int, now: Time, token: string)
    requires subject in db.subjects && TokenInUse(db.sessions, token)
    ensures CreateSessionWithToken(db, true, Some(subject), Some(minutes), now, token) == (IntegrityError, db)
  {
  }

  /**
   * `generate_qr` as written: it never sets the token, so every session is
   * stored with the empty token.
   */
  function GenerateQr(db: Db, isPost: bool, subjectId: Option<SubjectId>, duration: Option<int>, now: Time): (r: (CreateOutcome, Db))
    ensures r.0.Created? ==> r.0.session in r.1.sessions && r.1.sessions[r.0.session].token == UnsetToken
    ensures TokenInUse(db.sessions, UnsetToken) ==> !r.0.Created? && r.1 == db
  {
    CreateSessionWithToken(db, isPost, subjectId, duration, now, UnsetToken)
  }

  /**
   * A created session outlives its creation instant exactly when the duration
   * is positive, and it is open at every instant up to `now + duration` minutes.
   */
  lemma WindowOfCreatedSession(db: Db, subjectId: Option<SubjectId>, duration: Option<int>, now: Time, token: string, t: Time)
    requires CreateSessionWithToken(db, true, subjectId, duration, now, token).0.Created?
    ensures var r := CreateSessionWithToken(db, true, subjectId, duration, now, token);
      var s := r.1.sessions[r.0.session];
      (s.expiresAt > s.createdAt <==> duration.GetOr(DefaultDuration) > 0) &&
      (!IsExpired(s, t) <==> t <= now + duration.GetOr(DefaultDuration) * SecondsPerMinute)
  {
  }

  /**
   * The defect of `generate_qr`: once one session exists, every further
   * submission naming an existing subject is refused by the database, since
   * the new row would repeat the empty token.
   */
  lemma {:induction false} SecondGenerateQrFails(db: Db, s1: Option<SubjectId>, d1: Option<int>, t1: Time,
                                                 s2: Option<SubjectId>, d2: Option<int>, t2: Time)
    requires GenerateQr(db, true, s1, d1, t1).0.Created?
    requires s2.Some? && s2.value in db.subjects
    ensures var after := GenerateQr(db, true, s1, d1, t1).1;
      GenerateQr(after, true, s2, d2, t2) == (IntegrityError, after)
  {
    var first := GenerateQr(db, true, s1, d1, t1);
    var q := first.0.session;
    assert first.1.sessions[q].token == UnsetToken;
    assert TokenInUse(first.1.sessions, UnsetToken);
  }

  /** A concrete database on which the second `generate_qr` fails. */
  lemma SecondGenerateQrFailsExample()
    ensures var db := Db(map[0 := Branch("CSE")], map[0 := Subject("CS101", "Programming", 0, 1)],
                         map[], map[], map[], 0, 0);
      var first := GenerateQr(db, true, Some(0), None, 1000);
      first.0 == Created(0) &&
      GenerateQr(first.1, true, Some(0), None, 1060).0 == IntegrityError
  {
    var db := Db(map[0 := Branch("CSE")], map[0 := Subject("CS101", "Programming", 0, 1)],
                 map[], map[], map[], 0, 0);
    var first := GenerateQr(db, true, Some(0), None, 1000);
    assert !TokenInUse(db.sessions, UnsetToken);
    assert 0 in first.1.sessions && first.1.sessions[0].token == UnsetToken;
  }

  /**
   * The intended behaviour: with a token no stored session carries (a fresh
   * random one), a submission for an existing subject always creates its
   * session, so successive sessions are all created.
   */
  lemma {:induction false} FreshTokensAlwaysCreate(db: Db, s1: SubjectId, d1: Option<int>, t1: Time, token1: string,
                                                   s2: SubjectId, d2: Option<int>, t2: Time, token2: string)
    requires s1 in db.subjects && s2 in db.subjects
    requires !TokenInUse(db.sessions, token1) && !TokenInUse(db.sessions, token2) && token1 != token2
    ensures var first := CreateSessionWithToken(db, true, Some(s1), d1, t1, token1);
      first.0.Created? &&
      CreateSessionWithToken(first.1, true, Some(s2), d2, t2, token2).0.Created?
  {
    var first := CreateSessionWithToken(db, true, Some(s1), d1, t1, token1);
    var q := first.0.session;
    assert first.1.sessions[q].token == token1;
    forall p | p in first.1.sessions
      ensures first.1.sessions[p].token != token2
    {
      if p != q {
        assert p in db.sessions && first.1.sessions[p] == db.sessions[p];
      }
    }
    assert !TokenInUse(first.1.sessions, token2);
  }
}
