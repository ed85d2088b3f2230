/** What the scan endpoint guarantees, one outcome at a time; the global
    rule that at most one teacher holds an open session, kept by every
    write except the session override; and how writes show up in the counts. */
module Invariants {
  import opened Schema
  import opened Collections
  import opened Engine
  import opened Periods
  import opened Queries
  import Registration

  predicate NoOpenTeacher(us: seq<User>)
  {
    forall k :: 0 <= k < |us| ==> !IsOpenTeacher(us[k])
  }

  /** The user fields a write never touches. */
  predicate SameIdentities(us: seq<User>, us': seq<User>)
  {
    && |us'| == |us|
    && forall k :: 0 <= k < |us| ==>
         && us'[k].id == us[k].id && us'[k].username == us[k].username
         && us'[k].role == us[k].role && us'[k].fingerprintId == us[k].fingerprintId
  }

  // ----- scan, outcome by outcome -----

  /** A scan without a fingerprint is a 400 and one whose fingerprint no
      user has is a 404; neither changes the store. */
  lemma ScanRejectsUnknown(db: Db, fp: string, now: int)
    ensures Scan(db, "", now) == (Err(MissingFingerprint), db)
    ensures fp != "" && (forall k :: 0 <= k < |db.users| ==> db.users[k].fingerprintId != fp)
            ==> Scan(db, fp, now) == (Err(NotFound), db)
  {
  }

  /** A teacher scanning while a different teacher holds the open session
      gets a 403 conflict and nothing changes. */
  lemma ScanConflict(db: Db, fp: string, now: int, i: nat, j: nat)
    requires WellFormed(db) && Exclusive(db.users)
    requires fp != "" && FirstMatch(db.users, ByFingerprint(fp), i) && db.users[i].role == Teacher
    requires j < |db.users| && j != i && IsOpenTeacher(db.users[j])
    ensures Scan(db, fp, now) == (Err(SessionConflict), db)
  {
    FindOneIsFirstMatch(db.users, ByFingerprint(fp), i);
    var a := FindOne(db.users, OpenTeacher);
    assert Matches(db.users[j], OpenTeacher);
    assert a == Some(j);
    assert db.users[j].id != db.users[i].id;
  }

  /** A teacher scanning while no session is open opens one: every student
      becomes absent, the teacher is open since `now` with a fresh handle,
      and no Session or attendance row is written. */
  lemma ScanOpens(db: Db, fp: string, now: int, i: nat)
    requires fp != "" && FirstMatch(db.users, ByFingerprint(fp), i) && db.users[i].role == Teacher
    requires NoOpenTeacher(db.users)
    ensures Scan(db, fp, now).0 == Ok(SessionStarted(db.users[i].subject))
    ensures var db' := Scan(db, fp, now).1;
      && |db'.users| == |db.users|
      && db'.users[i] == db.users[i].(sessionOpen := true, sessionStart := Some(now), activeSessionId := Some(db.nextOid))
      && (forall k :: 0 <= k < |db.users| && db.users[k].role == Student ==>
            db'.users[k] == db.users[k].(attendance := Absent))
      && (forall k :: 0 <= k < |db.users| && k != i && db.users[k].role == Teacher ==> db'.users[k] == db.users[k])
      && db'.sessions == db.sessions && db'.records == db.records && db'.nextOid == db.nextOid + 1
  {
    FindOneIsFirstMatch(db.users, ByFingerprint(fp), i);
    assert !IsOpenTeacher(db.users[i]);
  }

  /** The teacher holding the open session closes it: exactly one Session
      row is appended with the stored start and `now` as end, and only that
      teacher's session fields are cleared. */
  lemma ScanCloses(db: Db, fp: string, now: int, i: nat)
    requires WellFormed(db) && Exclusive(db.users)
    requires fp != "" && FirstMatch(db.users, ByFingerprint(fp), i) && IsOpenTeacher(db.users[i])
    ensures Scan(db, fp, now).0 == Ok(SessionEnded)
    ensures var db' := Scan(db, fp, now).1;
      && db.users[i].sessionStart.Some?
      && db'.sessions == db.sessions + [SessionRow(db.users[i].id, db.users[i].sessionStart.value, now)]
      && db'.users == db.users[i := db.users[i].(sessionOpen := false, sessionStart := None, activeSessionId := None)]
      && db'.records == db.records && db'.nextOid == db.nextOid
  {
    FindOneIsFirstMatch(db.users, ByFingerprint(fp), i);
    assert Matches(db.users[i], OpenTeacher);
    assert FindOne(db.users, OpenTeacher) == Some(i);
    assert UserWellFormed(db.users[i], db.nextOid);
  }

  /** A student scanning while no session is open gets a 403 and nothing
      changes. */
  lemma ScanStudentRefused(db: Db, fp: string, now: int, i: nat)
    requires fp != "" && FirstMatch(db.users, ByFingerprint(fp), i) && db.users[i].role == Student
    requires NoOpenTeacher(db.users)
    ensures Scan(db, fp, now) == (Err(SessionNotOpen), db)
  {
    FindOneIsFirstMatch(db.users, ByFingerprint(fp), i);
  }

  /** A student scanning during teacher `j`'s session is marked present at
      `now`, and one attended record under `j`'s handle is appended;
      nothing else changes. */
  lemma ScanStudentMarked(db: Db, fp: string, now: int, i: nat, j: nat)
    requires WellFormed(db) && Exclusive(db.users)
    requires fp != "" && FirstMatch(db.users, ByFingerprint(fp), i) && db.users[i].role == Student
    requires j < |db.users| && IsOpenTeacher(db.users[j])
    ensures Scan(db, fp, now).0 == Ok(AttendanceMarked(db.users[i].username))
    ensures var db' := Scan(db, fp, now).1;
      && db.users[j].activeSessionId.Some?
      && db'.users == db.users[i := db.users[i].(attendance := Present, lastUpdated := Some(now))]
      && db'.records == db.records + [AttendanceRecord(db.users[i].id, db.users[j].activeSessionId.value, true)]
      && db'.sessions == db.sessions && db'.nextOid == db.nextOid
  {
    FindOneIsFirstMatch(db.users, ByFingerprint(fp), i);
    assert Matches(db.users[j], OpenTeacher);
    assert FindOne(db.users, OpenTeacher) == Some(j);
    assert UserWellFormed(db.users[j], db.nextOid);
  }

  // ----- the global invariants -----

  lemma ScanKeepsIdentities(db: Db, fp: string, now: int)
    ensures SameIdentities(db.users, Scan(db, fp, now).1.users)
  {
    var db' := Scan(db, fp, now).1;
    if fp != "" && FindOne(db.users, ByFingerprint(fp)).Some? && db' != db {
      var i := FindOne(db.users, ByFingerprint(fp)).value;
      var user := db.users[i];
      if user.role == Teacher && !user.sessionOpen {
        var reset := MarkAbsentWhere(db.users, Students);
        assert db'.users == reset[i := user.(sessionOpen := true, sessionStart := Some(now), activeSessionId := Some(db.nextOid))];
      } else if user.role == Teacher {
        assert db'.users == db.users[i := user.(sessionOpen := false, sessionStart := None, activeSessionId := None)];
      } else {
        assert db'.users == db.users[i := user.(attendance := Present, lastUpdated := Some(now))];
      }
    }
  }

  lemma ScanPreservesWellFormed(db: Db, fp: string, now: int)
    requires WellFormed(db)
    ensures WellFormed(Scan(db, fp, now).1)
  {
    var db' := Scan(db, fp, now).1;
    if fp == "" || FindOne(db.users, ByFingerprint(fp)).None? {
      return;
    }
    var i := FindOne(db.users, ByFingerprint(fp)).value;
    var user := db.users[i];
    var a := FindOne(db.users, OpenTeacher);
    ScanKeepsIdentities(db, fp, now);
    if db' == db {
      return;
    }
    if user.role == Teacher && !user.sessionOpen {
      var reset := MarkAbsentWhere(db.users, Students);
      assert db'.users == reset[i := user.(sessionOpen := true, sessionStart := Some(now), activeSessionId := Some(db.nextOid))];
      forall k | 0 <= k < |db'.users|
        ensures UserWellFormed(db'.users[k], db'.nextOid)
      {
        assert UserWellFormed(db.users[k], db.nextOid);
      }
    } else if user.role == Teacher {
      assert db'.users == db.users[i := user.(sessionOpen := false, sessionStart := None, activeSessionId := None)];
      forall k | 0 <= k < |db'.users|
        ensures UserWellFormed(db'.users[k], db'.nextOid)
      {
        assert UserWellFormed(db.users[k], db.nextOid);
      }
    } else {
      var h := db.users[a.value].activeSessionId.value;
      assert UserWellFormed(db.users[a.value], db.nextOid);
      assert db'.users == db.users[i := user.(attendance := Present, lastUpdated := Some(now))];
      assert db'.records == db.records + [AttendanceRecord(user.id, h, true)];
      forall k | 0 <= k < |db'.users|
        ensures UserWellFormed(db'.users[k], db'.nextOid)
      {
        assert UserWellFormed(db.users[k], db.nextOid);
      }
    }
  }

  /** No scan can leave two teachers with open sessions. */
  lemma ScanPreservesExclusive(db: Db, fp: string, now: int)
    requires WellFormed(db) && Exclusive(db.users)
    ensures Exclusive(Scan(db, fp, now).1.users)
  {
    var r := Scan(db, fp, now);
    if r.0.Ok? && r.0.value.SessionStarted? {
      var i :| FindOne(db.users, ByFingerprint(fp)) == Some(i);
      forall k | 0 <= k < |r.1.users| && k != i
        ensures !IsOpenTeacher(r.1.users[k])
      {
        assert !Matches(db.users[k], OpenTeacher);
      }
    }
  }

  /** Any sequence of scans from a well-formed store with at most one open
      session keeps both properties. */
  lemma {:induction false} ScansPreserveInvariants(db: Db, scans: seq<ScanInput>)
    requires WellFormed(db) && Exclusive(db.users)
    ensures WellFormed(RunScans(db, scans)) && Exclusive(RunScans(db, scans).users)
    decreases |scans|
  {
    if scans != [] {
      var next := Scan(db, scans[0].fingerprintId, scans[0].now).1;
      ScanPreservesWellFormed(db, scans[0].fingerprintId, scans[0].now);
      ScanPreservesExclusive(db, scans[0].fingerprintId, scans[0].now);
      ScansPreserveInvariants(next, scans[1..]);
    }
  }

  /** The handle a scan mints for a new session is unlike every handle
      already in use and every handle already recorded in attendance rows. */
  lemma StartedSessionHandleIsFresh(db: Db, fp: string, now: int, i: nat)
    requires WellFormed(db)
    requires fp != "" && FirstMatch(db.users, ByFingerprint(fp), i)
    requires Scan(db, fp, now).0.Ok? && Scan(db, fp, now).0.value.SessionStarted?
    ensures var db' := Scan(db, fp, now).1;
      && i < |db'.users| && db'.users[i].activeSessionId.Some?
      && (forall k :: 0 <= k < |db.records| ==> db.records[k].sessionId != db'.users[i].activeSessionId.value)
      && (forall k :: 0 <= k < |db'.users| && k != i ==> db'.users[k].activeSessionId != db'.users[i].activeSessionId)
  {
    FindOneIsFirstMatch(db.users, ByFingerprint(fp), i);
    var db' := Scan(db, fp, now).1;
    forall k | 0 <= k < |db'.users| && k != i
      ensures db'.users[k].activeSessionId != db'.users[i].activeSessionId
    {
      assert UserWellFormed(db.users[k], db.nextOid);
    }
  }

  // ----- scans as the reports see them -----

  /** Closing a session adds one lecture to the closing teacher's count for
      any period that has begun by `now`, and none to any other teacher's. */
  lemma EndedSessionIsCounted(db: Db, fp: string, now: int, i: nat, period: string, c: Clock)
    requires fp != "" && FirstMatch(db.users, ByFingerprint(fp), i)
    requires Scan(db, fp, now).0 == Ok(SessionEnded)
    requires Threshold(ParsePeriod(period), c) <= now
    ensures var db' := Scan(db, fp, now).1;
      && TeacherSessions(db'.sessions, db.users[i].id, period, c) == TeacherSessions(db.sessions, db.users[i].id, period, c) + 1
      && forall t :: t != db.users[i].id ==>
           TeacherSessions(db'.sessions, t, period, c) == TeacherSessions(db.sessions, t, period, c)
  {
    FindOneIsFirstMatch(db.users, ByFingerprint(fp), i);
    var db' := Scan(db, fp, now).1;
    var row := SessionRow(db.users[i].id, db.users[i].sessionStart.value, now);
    assert db'.sessions == db.sessions + [row];
    var th := Threshold(ParsePeriod(period), c);
    CountAppend(db.sessions, row, OfTeacherSince(db.users[i].id, th));
    forall t | t != db.users[i].id
      ensures TeacherSessions(db'.sessions, t, period, c) == TeacherSessions(db.sessions, t, period, c)
    {
      CountAppend(db.sessions, row, OfTeacherSince(t, th));
    }
  }

  /** Marking a student adds one attended lecture to that student's summary
      and changes no other count. */
  lemma MarkedAttendanceIsCounted(db: Db, fp: string, now: int, i: nat, period: string, c: Clock)
    requires fp != "" && FirstMatch(db.users, ByFingerprint(fp), i)
    requires Scan(db, fp, now).0.Ok? && Scan(db, fp, now).0.value.AttendanceMarked?
    ensures var db' := Scan(db, fp, now).1;
      && StudentSummary(db'.sessions, db'.records, db.users[i].id, period, c).attendedLectures
         == StudentSummary(db.sessions, db.records, db.users[i].id, period, c).attendedLectures + 1
      && StudentSummary(db'.sessions, db'.records, db.users[i].id, period, c).totalLectures
         == StudentSummary(db.sessions, db.records, db.users[i].id, period, c).totalLectures
      && forall s :: s != db.users[i].id ==>
           StudentSummary(db'.sessions, db'.records, s, period, c) == StudentSummary(db.sessions, db.records, s, period, c)
  {
    FindOneIsFirstMatch(db.users, ByFingerprint(fp), i);
    var db' := Scan(db, fp, now).1;
    var a := FindOne(db.users, OpenTeacher);
    var rec := AttendanceRecord(db.users[i].id, db.users[a.value].activeSessionId.value, true);
    assert db'.records == db.records + [rec];
    CountAppend(db.records, rec, AttendedBy(db.users[i].id));
    forall s | s != db.users[i].id
      ensures StudentSummary(db'.sessions, db'.records, s, period, c) == StudentSummary(db.sessions, db.records, s, period, c)
    {
      CountAppend(db.records, rec, AttendedBy(s));
    }
  }

  /** Teacher T opens, student S scans, T closes: the replies are started,
      marked and ended; one Session row from the opening to the closing time
      and one attended record under the session's handle are written, and S
      stays present after the close. */
  lemma OpenMarkClose(db: Db, tfp: string, sfp: string, t0: int, t1: int, t2: int, i: nat, j: nat)
    requires WellFormed(db) && NoOpenTeacher(db.users)
    requires tfp != "" && FirstMatch(db.users, ByFingerprint(tfp), i) && db.users[i].role == Teacher
    requires sfp != "" && FirstMatch(db.users, ByFingerprint(sfp), j) && db.users[j].role == Student
    ensures var db1 := Scan(db, tfp, t0).1;
            var db2 := Scan(db1, sfp, t1).1;
            var db3 := Scan(db2, tfp, t2).1;
      && Scan(db, tfp, t0).0 == Ok(SessionStarted(db.users[i].subject))
      && Scan(db1, sfp, t1).0 == Ok(AttendanceMarked(db.users[j].username))
      && Scan(db2, tfp, t2).0 == Ok(SessionEnded)
      && db3.sessions == db.sessions + [SessionRow(db.users[i].id, t0, t2)]
      && db3.records == db.records + [AttendanceRecord(db.users[j].id, db.nextOid, true)]
      && |db3.users| == |db.users| && db3.users[j].attendance == Present
  {
    OpenThenMark(db, tfp, sfp, t0, t1, i, j);
    CloseKeepsOthers(Scan(Scan(db, tfp, t0).1, sfp, t1).1, tfp, t2, i, j);
  }

  /** The last scan of `OpenMarkClose`. */
  lemma CloseKeepsOthers(db: Db, fp: string, now: int, i: nat, j: nat)
    requires WellFormed(db) && Exclusive(db.users)
    requires fp != "" && FirstMatch(db.users, ByFingerprint(fp), i) && IsOpenTeacher(db.users[i])
    requires j < |db.users| && j != i
    ensures Scan(db, fp, now).0 == Ok(SessionEnded)
    ensures db.users[i].sessionStart.Some?
    ensures Scan(db, fp, now).1.sessions == db.sessions + [SessionRow(db.users[i].id, db.users[i].sessionStart.value, now)]
    ensures Scan(db, fp, now).1.records == db.records
    ensures |Scan(db, fp, now).1.users| == |db.users| && Scan(db, fp, now).1.users[j] == db.users[j]
  {
    ScanCloses(db, fp, now, i);
  }

  /** The first two scans of `OpenMarkClose`. */
  lemma OpenThenMark(db: Db, tfp: string, sfp: string, t0: int, t1: int, i: nat, j: nat)
    requires WellFormed(db) && NoOpenTeacher(db.users)
    requires tfp != "" && FirstMatch(db.users, ByFingerprint(tfp), i) && db.users[i].role == Teacher
    requires sfp != "" && FirstMatch(db.users, ByFingerprint(sfp), j) && db.users[j].role == Student
    ensures var db1 := Scan(db, tfp, t0).1;
            var db2 := Scan(db1, sfp, t1).1;
      && Scan(db, tfp, t0).0 == Ok(SessionStarted(db.users[i].subject))
      && Scan(db1, sfp, t1).0 == Ok(AttendanceMarked(db.users[j].username))
      && WellFormed(db2) && Exclusive(db2.users)
      && FirstMatch(db2.users, ByFingerprint(tfp), i) && IsOpenTeacher(db2.users[i])
      && i != j && db2.users[i].sessionStart == Some(t0) && db2.users[i].id == db.users[i].id
      && |db2.users| == |db.users| && db2.users[j].attendance == Present
      && db2.sessions == db.sessions
      && db2.records == db.records + [AttendanceRecord(db.users[j].id, db.nextOid, true)]
  {
    var db1 := Scan(db, tfp, t0).1;
    ScanOpens(db, tfp, t0, i);
    ScanPreservesWellFormed(db, tfp, t0);
    ScanPreservesExclusive(db, tfp, t0);
    ScanKeepsIdentities(db, tfp, t0);
    KeepFirstMatch(db.users, db1.users, sfp, j);
    assert db1.users[j] == db.users[j].(attendance := Absent);
    ScanStudentMarked(db1, sfp, t1, j, i);
    var db2 := Scan(db1, sfp, t1).1;
    ScanPreservesWellFormed(db1, sfp, t1);
    ScanPreservesExclusive(db1, sfp, t1);
    ScanKeepsIdentities(db1, sfp, t1);
    KeepFirstMatch(db.users, db2.users, tfp, i);
  }

  lemma KeepFirstMatch(us: seq<User>, us': seq<User>, fp: string, k: nat)
    requires FirstMatch(us, ByFingerprint(fp), k)
    requires |us'| == |us| && forall m :: 0 <= m < |us| ==> us'[m].fingerprintId == us[m].fingerprintId
    ensures FirstMatch(us', ByFingerprint(fp), k)
  {
    forall m | 0 <= m < k
      ensures !Matches(us'[m], ByFingerprint(fp))
    {
      assert !Matches(us[m], ByFingerprint(fp));
    }
  }

  // ----- the other writes -----

  /** The export reset (present students to absent) leaves the same users as
      the reset at session open (all students to absent). */
  lemma ExportResetMatchesOpenReset(us: seq<User>)
    ensures MarkAbsentWhere(us, PresentStudents) == MarkAbsentWhere(us, Students)
  {
    var a, b := MarkAbsentWhere(us, PresentStudents), MarkAbsentWhere(us, Students);
    forall k | 0 <= k < |us|
      ensures a[k] == b[k]
    {
      if us[k].role == Student && us[k].attendance == Absent {
        assert a[k] == us[k];
      }
    }
  }

  /** A teacher report lists exactly the students; afterwards every student
      is absent and no user changes anything but attendance. */
  lemma TeacherReportResets(db: Db, teacherId: nat)
    requires DownloadTeacherReport(db, teacherId).0.Ok?
    ensures var (r, db') := DownloadTeacherReport(db, teacherId);
      && (forall u :: u in r.value <==> u in db.users && u.role == Student)
      && (forall u :: multiset(r.value)[u] == (if u.role == Student then multiset(db.users)[u] else 0))
      && |db'.users| == |db.users|
      && (forall k :: 0 <= k < |db.users| && db.users[k].role == Student ==> db'.users[k] == db.users[k].(attendance := Absent))
      && (forall k :: 0 <= k < |db.users| && db.users[k].role == Teacher ==> db'.users[k] == db.users[k])
  {
    assert DownloadTeacherReport(db, teacherId).0.value == Find(db.users, Students);
    assert DownloadTeacherReport(db, teacherId).1.users == MarkAbsentWhere(db.users, PresentStudents);
    ExportRoster(db.users);
    ExportReset(db.users);
  }

  /** The export's roster holds every student as often as stored, and no teacher. */
  lemma ExportRoster(us: seq<User>)
    ensures forall u :: u in Find(us, Students) <==> u in us && u.role == Student
    ensures forall u :: multiset(Find(us, Students))[u] == (if u.role == Student then multiset(us)[u] else 0)
  {
    FindCounts(us, Students);
  }

  /** The export's reset leaves every student absent and every teacher as it was. */
  lemma ExportReset(us: seq<User>)
    ensures var us' := MarkAbsentWhere(us, PresentStudents);
      && |us'| == |us|
      && (forall k :: 0 <= k < |us| && us[k].role == Student ==> us'[k] == us[k].(attendance := Absent))
      && (forall k :: 0 <= k < |us| && us[k].role == Teacher ==> us'[k] == us[k])
  {
    var us' := MarkAbsentWhere(us, PresentStudents);
    forall k | 0 <= k < |us| && us[k].role == Student
      ensures us'[k] == us[k].(attendance := Absent)
    {
      if us[k].attendance == Absent {
        assert us'[k] == us[k];
      }
    }
  }

  /** Two teacher reports in a row: the second lists no one as present. */
  lemma SecondTeacherReportShowsNoOnePresent(db: Db, t1: nat, t2: nat)
    requires DownloadTeacherReport(db, t1).0.Ok?
    requires DownloadTeacherReport(DownloadTeacherReport(db, t1).1, t2).0.Ok?
    ensures forall u :: u in DownloadTeacherReport(DownloadTeacherReport(db, t1).1, t2).0.value ==> u.attendance == Absent
  {
    var db1 := DownloadTeacherReport(db, t1).1;
    assert db1.users == MarkAbsentWhere(db.users, PresentStudents);
    assert DownloadTeacherReport(db1, t2).0.value == Find(db1.users, Students);
    NoStudentPresentAfterReset(db.users);
  }

  /** After the export reset no student is present. */
  lemma NoStudentPresentAfterReset(us: seq<User>)
    ensures forall u :: u in Find(MarkAbsentWhere(us, PresentStudents), Students) ==> u.attendance == Absent
  {
    var reset := MarkAbsentWhere(us, PresentStudents);
    forall u | u in Find(reset, Students)
      ensures u.attendance == Absent
    {
      var k :| 0 <= k < |reset| && reset[k] == u;
      if !Matches(us[k], PresentStudents) {
        assert reset[k] == us[k];
      }
    }
  }

  /** With unique ids, a report is refused exactly when no user with that
      id holds the report's role. */
  lemma ReportFoundExactly(db: Db, id: nat, now: int)
    requires WellFormed(db)
    ensures DownloadTeacherReport(db, id).0.Ok? <==>
      exists k :: 0 <= k < |db.users| && db.users[k].id == id && db.users[k].role == Teacher
    ensures DownloadStudentReport(db, id, now).0.Ok? <==>
      exists k :: 0 <= k < |db.users| && db.users[k].id == id && db.users[k].role == Student
  {
    if k :| 0 <= k < |db.users| && db.users[k].id == id {
      assert FirstMatch(db.users, ById(id), k);
    }
  }

  /** A student report resets that student (absent, updated now) and no
      one else. */
  lemma StudentReportResets(db: Db, studentId: nat, now: int)
    requires WellFormed(db)
    requires DownloadStudentReport(db, studentId, now).0.Ok?
    ensures var db' := DownloadStudentReport(db, studentId, now).1;
      exists k :: 0 <= k < |db.users| && db.users[k].id == studentId && db.users[k].role == Student
        && db'.users == db.users[k := db.users[k].(attendance := Absent, lastUpdated := Some(now))]
        && forall m :: 0 <= m < |db.users| && m != k ==> db.users[m].id != studentId
  {
    var k := FindOne(db.users, ById(studentId)).value;
    assert db.users[k].id == studentId;
  }

  lemma TeacherReportPreservesInvariants(db: Db, teacherId: nat)
    requires WellFormed(db)
    ensures WellFormed(DownloadTeacherReport(db, teacherId).1)
    ensures Exclusive(db.users) ==> Exclusive(DownloadTeacherReport(db, teacherId).1.users)
  {
    var db' := DownloadTeacherReport(db, teacherId).1;
    forall k | 0 <= k < |db'.users|
      ensures UserWellFormed(db'.users[k], db'.nextOid) && IsOpenTeacher(db'.users[k]) == IsOpenTeacher(db.users[k])
    {
      assert UserWellFormed(db.users[k], db.nextOid);
    }
  }

  lemma StudentReportPreservesInvariants(db: Db, studentId: nat, now: int)
    requires WellFormed(db)
    ensures WellFormed(DownloadStudentReport(db, studentId, now).1)
    ensures Exclusive(db.users) ==> Exclusive(DownloadStudentReport(db, studentId, now).1.users)
  {
    var db' := DownloadStudentReport(db, studentId, now).1;
    forall k | 0 <= k < |db'.users|
      ensures UserWellFormed(db'.users[k], db'.nextOid) && IsOpenTeacher(db'.users[k]) == IsOpenTeacher(db.users[k])
    {
      assert UserWellFormed(db.users[k], db.nextOid);
    }
  }

  /** A successful signup appends one closed, absent user with a fresh id
      and keeps both invariants. */
  lemma SignUpPreservesInvariants(db: Db, req: Registration.SignupRequest)
    requires WellFormed(db)
    ensures var (r, db') := SignUp(db, req);
      && WellFormed(db') && (Exclusive(db.users) ==> Exclusive(db'.users))
      && (r.Ok? ==> exists u :: db'.users == db.users + [u] && u.id == db.nextOid && !u.sessionOpen && u.attendance == Absent)
  {
    var (r, db') := SignUp(db, req);
    if r.Ok? {
      var u := Registration.NewUser(req, db.nextOid).value;
      assert db'.users == db.users + [u];
      forall k | 0 <= k < |db.users|
        ensures db.users[k].username != u.username && db.users[k].id != u.id
      {
        assert !Matches(db.users[k], ByUsername(u.username));
        assert UserWellFormed(db.users[k], db.nextOid);
      }
      forall k | 0 <= k < |db'.users|
        ensures UserWellFormed(db'.users[k], db'.nextOid)
      {
        if k < |db.users| {
          assert UserWellFormed(db.users[k], db.nextOid);
        }
      }
    }
  }

  /** The session override keeps the store well formed. */
  lemma UpdateSessionPreservesWellFormed(db: Db, fp: string, active: string, now: int)
    requires WellFormed(db)
    ensures WellFormed(UpdateSession(db, fp, active, now).1)
  {
    var db' := UpdateSession(db, fp, active, now).1;
    forall k | 0 <= k < |db'.users|
      ensures UserWellFormed(db'.users[k], db'.nextOid)
    {
      assert UserWellFormed(db.users[k], db.nextOid);
    }
  }

  /** The session override sets the first such teacher's flag to whether
      `active` is "1", with a start time and a fresh handle when it opens and
      neither when it closes; no other user changes. */
  lemma UpdateSessionSets(db: Db, fp: string, active: string, now: int, k: nat)
    requires FirstMatch(db.users, ByFingerprintAndRole(fp, Teacher), k)
    ensures var (r, db') := UpdateSession(db, fp, active, now);
      var opens := active == "1";
      && r == Ok(opens)
      && db'.users == db.users[k := db.users[k].(
           sessionOpen := opens,
           sessionStart := if opens then Some(now) else None,
           activeSessionId := if opens then Some(db.nextOid) else None)]
      && db'.nextOid == if opens then db.nextOid + 1 else db.nextOid
  {
    FindOneIsFirstMatch(db.users, ByFingerprintAndRole(fp, Teacher), k);
  }

  /** Once two teachers are open (which only the override can bring about),
      the scan's conflict check looks at the first open teacher only: that
      teacher's scan closes their session while the other stays open, and
      the other teacher's scan is refused. */
  lemma TwoOpenTeachers(db: Db, fpA: string, fpB: string, now: int, a: nat, b: nat)
    requires WellFormed(db)
    requires fpA != "" && FirstMatch(db.users, ByFingerprint(fpA), a) && IsOpenTeacher(db.users[a])
    requires fpB != "" && FirstMatch(db.users, ByFingerprint(fpB), b) && IsOpenTeacher(db.users[b])
    requires a < b && forall k :: 0 <= k < a ==> !IsOpenTeacher(db.users[k])
    ensures Scan(db, fpA, now).0 == Ok(SessionEnded)
    ensures IsOpenTeacher(Scan(db, fpA, now).1.users[b])
    ensures Scan(db, fpB, now) == (Err(SessionConflict), db)
  {
    FindOneIsFirstMatch(db.users, ByFingerprint(fpA), a);
    FindOneIsFirstMatch(db.users, ByFingerprint(fpB), b);
    assert FirstMatch(db.users, OpenTeacher, a);
    FindOneIsFirstMatch(db.users, OpenTeacher, a);
    assert UserWellFormed(db.users[a], db.nextOid);
    assert db.users[a].id != db.users[b].id;
  }

  /** Forcing a second teacher open while another teacher holds the session
      succeeds and leaves two open sessions, where a scan by the same teacher
      would have been refused with a conflict. */
  lemma UpdateSessionBreaksExclusive(db: Db, fp: string, now: int, k: nat, j: nat)
    requires FirstMatch(db.users, ByFingerprintAndRole(fp, Teacher), k)
    requires j < |db.users| && j != k && IsOpenTeacher(db.users[j])
    ensures UpdateSession(db, fp, "1", now).0 == Ok(true)
    ensures !Exclusive(UpdateSession(db, fp, "1", now).1.users)
  {
    FindOneIsFirstMatch(db.users, ByFingerprintAndRole(fp, Teacher), k);
    var us' := UpdateSession(db, fp, "1", now).1.users;
    assert IsOpenTeacher(us'[k]) && IsOpenTeacher(us'[j]);
  }

  /** Closing through the override writes no Session row, so the lecture
      never reaches any count. */
  lemma UpdateSessionCloseIsNotCounted(db: Db, fp: string, active: string, now: int, teacherId: nat, period: string, c: Clock)
    requires active != "1"
    ensures TeacherSessions(UpdateSession(db, fp, active, now).1.sessions, teacherId, period, c)
         == TeacherSessions(db.sessions, teacherId, period, c)
  {
  }

  /** The attendance override marks a student present even when no session
      is open, where a scan would be refused; it writes no attendance record
      and keeps both invariants. */
  lemma UpdateAttendanceWithoutSession(db: Db, fp: string, now: int, k: nat)
    requires WellFormed(db)
    requires FirstMatch(db.users, ByFingerprintAndRole(fp, Student), k)
    ensures var (r, db') := UpdateAttendance(db, fp, now);
      && r == Ok(db.users[k].username)
      && db'.users == db.users[k := db.users[k].(attendance := Present, lastUpdated := Some(now))]
      && db'.records == db.records
      && WellFormed(db') && (Exclusive(db.users) ==> Exclusive(db'.users))
  {
    FindOneIsFirstMatch(db.users, ByFingerprintAndRole(fp, Student), k);
    var db' := UpdateAttendance(db, fp, now).1;
    forall m | 0 <= m < |db'.users|
      ensures UserWellFormed(db'.users[m], db'.nextOid) && IsOpenTeacher(db'.users[m]) == IsOpenTeacher(db.users[m])
    {
      assert UserWellFormed(db.users[m], db.nextOid);
    }
  }
}
