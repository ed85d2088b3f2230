/** The server's state as it is changed in place: the three collections, the
    ObjectId counter and the process-wide fingerprint enrollment counter.
    Every handler except enrollment is proved to leave the reply and the
    collections exactly as the corresponding `Engine` transition describes;
    enrollment and a process restart are stated directly on the fields. */
module Server {
  import opened Schema
  import opened Collections
  import Engine
  import Invariants
  import Registration

  class Store {
    var users: seq<User>
    var sessions: seq<SessionRow>
    var records: seq<AttendanceRecord>
    var nextOid: nat
    /** The in-memory enrollment counter; it starts at 1 and is never persisted. */
    var nextFingerprintId: nat
    /** The fingerprint ids handed out so far. */
    ghost var enrolled: set<nat>

    /** The collections as one value. */
    function State(): Engine.Db
      reads this
    {
      Engine.Db(users, sessions, records, nextOid)
    }

    ghost predicate Valid()
      reads this
    {
      && Engine.WellFormed(State())
      && 1 <= nextFingerprintId
      && forall id :: id in enrolled <==> 1 <= id < nextFingerprintId
    }

    /** A fresh process over empty collections. */
    constructor()
      ensures Valid() && Engine.Exclusive(users)
      ensures users == [] && sessions == [] && records == [] && nextOid == 0
      ensures nextFingerprintId == 1 && enrolled == {}
    {
      users, sessions, records, nextOid := [], [], [], 0;
      nextFingerprintId, enrolled := 1, {};
    }

    /** `updateMany(q, { attendance: "absent" })`, one user at a time. */
    method ResetWhere(q: Query)
      modifies this
      ensures users == MarkAbsentWhere(old(users), q)
      ensures sessions == old(sessions) && records == old(records) && nextOid == old(nextOid)
      ensures nextFingerprintId == old(nextFingerprintId) && enrolled == old(enrolled)
    {
      var k := 0;
      while k < |users|
        invariant 0 <= k <= |users| == |old(users)|
        invariant forall m :: 0 <= m < k ==>
          users[m] == if Matches(old(users)[m], q) then old(users)[m].(attendance := Absent) else old(users)[m]
        invariant forall m :: k <= m < |users| ==> users[m] == old(users)[m]
        invariant sessions == old(sessions) && records == old(records) && nextOid == old(nextOid)
        invariant nextFingerprintId == old(nextFingerprintId) && enrolled == old(enrolled)
      {
        if Matches(users[k], q) {
          users := users[k := users[k].(attendance := Absent)];
        }
        k := k + 1;
      }
      assert forall m :: 0 <= m < |users| ==> users[m] == MarkAbsentWhere(old(users), q)[m];
    }

    /** POST /enroll: hands out the counter's value and advances it, so no
        id is handed out twice within one process; the collections are not
        touched. */
    method Enroll() returns (id: nat)
      requires Valid()
      modifies this
      ensures Valid()
      ensures id == old(nextFingerprintId) && nextFingerprintId == old(nextFingerprintId) + 1
      ensures id !in old(enrolled) && enrolled == old(enrolled) + {id}
      ensures State() == old(State())
    {
      id := nextFingerprintId;
      nextFingerprintId := nextFingerprintId + 1;
      enrolled := enrolled + {id};
    }

    /** A restart of the server process: the collections persist, but the
        enrollment counter is a plain variable and starts again at 1, so the
        ids handed out before are handed out again. */
    method Restart()
      requires Valid()
      modifies this
      ensures Valid()
      ensures State() == old(State())
      ensures nextFingerprintId == 1 && enrolled == {}
      ensures old(nextFingerprintId) > 1 ==> nextFingerprintId in old(enrolled)
    {
      nextFingerprintId, enrolled := 1, {};
    }

    /** POST /scan. */
    method Scan(fp: string, now: int) returns (r: Result<Engine.Reply>)
      requires Valid()
      modifies this
      ensures (r, State()) == Engine.Scan(old(State()), fp, now)
      ensures Valid() && (old(Engine.Exclusive(users)) ==> Engine.Exclusive(users))
      ensures nextFingerprintId == old(nextFingerprintId) && enrolled == old(enrolled)
    {
      ghost var db := State();
      Invariants.ScanPreservesWellFormed(db, fp, now);
      if Engine.Exclusive(users) {
        Invariants.ScanPreservesExclusive(db, fp, now);
      }
      if fp == "" {
        return Err(MissingFingerprint);
      }
      var found := FindOne(users, ByFingerprint(fp));
      if found.None? {
        return Err(NotFound);
      }
      var i := found.value;
      var user := users[i];
      var active := FindOne(users, OpenTeacher);
      if user.role == Teacher {
        if active.Some? && users[active.value].id != user.id {
          return Err(SessionConflict);
        }
        if !user.sessionOpen {
          OpenSession(i, now);
          return Ok(Engine.SessionStarted(user.subject));
        }
        match user.sessionStart
        case None =>
          return Err(Rejected);
        case Some(start) =>
          CloseSession(i, start, now);
          return Ok(Engine.SessionEnded);
      } else {
        if active.Some? && users[active.value].activeSessionId.Some? {
          MarkPresent(i, users[active.value].activeSessionId.value, now);
          return Ok(Engine.AttendanceMarked(user.username));
        }
        return Err(SessionNotOpen);
      }
    }

    /** The scan's opening writes: every student reset, then teacher `i`
        open since `now` under a freshly minted handle. */
    method OpenSession(i: nat, now: int)
      requires i < |users|
      modifies this
      ensures users == MarkAbsentWhere(old(users), Students)[i := old(users)[i].(
                sessionOpen := true, sessionStart := Some(now), activeSessionId := Some(old(nextOid)))]
      ensures nextOid == old(nextOid) + 1 && sessions == old(sessions) && records == old(records)
      ensures nextFingerprintId == old(nextFingerprintId) && enrolled == old(enrolled)
    {
      var teacher := users[i];
      ResetWhere(Students);
      users := users[i := teacher.(sessionOpen := true, sessionStart := Some(now), activeSessionId := Some(nextOid))];
      nextOid := nextOid + 1;
    }

    /** The scan's closing writes: one Session row, then teacher `i`'s
        session fields cleared. */
    method CloseSession(i: nat, start: int, now: int)
      requires i < |users|
      modifies this
      ensures sessions == old(sessions) + [SessionRow(old(users)[i].id, start, now)]
      ensures users == old(users)[i := old(users)[i].(sessionOpen := false, sessionStart := None, activeSessionId := None)]
      ensures nextOid == old(nextOid) && records == old(records)
      ensures nextFingerprintId == old(nextFingerprintId) && enrolled == old(enrolled)
    {
      var teacher := users[i];
      sessions := sessions + [SessionRow(teacher.id, start, now)];
      users := users[i := teacher.(sessionOpen := false, sessionStart := None, activeSessionId := None)];
    }

    /** The scan's marking writes: student `i` present at `now`, then one
        attended record under `handle`. */
    method MarkPresent(i: nat, handle: nat, now: int)
      requires i < |users|
      modifies this
      ensures users == old(users)[i := old(users)[i].(attendance := Present, lastUpdated := Some(now))]
      ensures records == old(records) + [AttendanceRecord(old(users)[i].id, handle, true)]
      ensures nextOid == old(nextOid) && sessions == old(sessions)
      ensures nextFingerprintId == old(nextFingerprintId) && enrolled == old(enrolled)
    {
      var student := users[i];
      users := users[i := student.(attendance := Present, lastUpdated := Some(now))];
      records := records + [AttendanceRecord(student.id, handle, true)];
    }

    /** POST /signup. */
    method SignUp(req: Registration.SignupRequest) returns (r: Result<()>)
      requires Valid()
      modifies this
      ensures (r, State()) == Engine.SignUp(old(State()), req)
      ensures Valid() && (old(Engine.Exclusive(users)) ==> Engine.Exclusive(users))
      ensures nextFingerprintId == old(nextFingerprintId) && enrolled == old(enrolled)
    {
      ghost var db := State();
      Invariants.SignUpPreservesInvariants(db, req);
      if Registration.CheckFields(req).Some? {
        return Err(MissingFields);
      }
      var made := Registration.NewUser(req, nextOid);
      if made.Err? {
        return Err(made.error);
      }
      var u := made.value;
      if FindOne(users, ByUsername(u.username)).Some? {
        return Err(Rejected);
      }
      users := users + [u];
      nextOid := nextOid + 1;
      return Ok(());
    }

    /** GET /download-pdf/:teacherId: the students as they were, then the
        reset of every present student. */
    method DownloadTeacherReport(teacherId: nat) returns (r: Result<seq<User>>)
      requires Valid()
      modifies this
      ensures (r, State()) == Engine.DownloadTeacherReport(old(State()), teacherId)
      ensures Valid() && (old(Engine.Exclusive(users)) ==> Engine.Exclusive(users))
      ensures nextFingerprintId == old(nextFingerprintId) && enrolled == old(enrolled)
    {
      ghost var db := State();
      Invariants.TeacherReportPreservesInvariants(db, teacherId);
      var found := FindOne(users, ById(teacherId));
      if found.None? || users[found.value].role != Teacher {
        return Err(NotFound);
      }
      r := Ok(Find(users, Students));
      ResetWhere(PresentStudents);
    }

    /** GET /download-pdf/student/:studentId: the student is reset afterwards. */
    method DownloadStudentReport(studentId: nat, now: int) returns (r: Result<()>)
      requires Valid()
      modifies this
      ensures (r, State()) == Engine.DownloadStudentReport(old(State()), studentId, now)
      ensures Valid() && (old(Engine.Exclusive(users)) ==> Engine.Exclusive(users))
      ensures nextFingerprintId == old(nextFingerprintId) && enrolled == old(enrolled)
    {
      ghost var db := State();
      Invariants.StudentReportPreservesInvariants(db, studentId, now);
      var found := FindOne(users, ById(studentId));
      if found.None? || users[found.value].role != Student {
        return Err(NotFound);
      }
      var k := found.value;
      users := users[k := users[k].(attendance := Absent, lastUpdated := Some(now))];
      return Ok(());
    }

    /** GET /update-session: the override, which may leave two sessions open. */
    method UpdateSession(fp: string, active: string, now: int) returns (r: Result<bool>)
      requires Valid()
      modifies this
      ensures (r, State()) == Engine.UpdateSession(old(State()), fp, active, now)
      ensures Valid()
      ensures nextFingerprintId == old(nextFingerprintId) && enrolled == old(enrolled)
    {
      Invariants.UpdateSessionPreservesWellFormed(State(), fp, active, now);
      var found := FindOne(users, ByFingerprintAndRole(fp, Teacher));
      if found.None? {
        return Err(NotFound);
      }
      var k := found.value;
      var t := users[k];
      if active == "1" {
        users := users[k := t.(sessionOpen := true, sessionStart := Some(now), activeSessionId := Some(nextOid))];
        nextOid := nextOid + 1;
        return Ok(true);
      }
      users := users[k := t.(sessionOpen := false, sessionStart := None, activeSessionId := None)];
      return Ok(false);
    }

    /** GET /update-attendance. */
    method UpdateAttendance(fp: string, now: int) returns (r: Result<string>)
      requires Valid()
      modifies this
      ensures (r, State()) == Engine.UpdateAttendance(old(State()), fp, now)
      ensures Valid() && (old(Engine.Exclusive(users)) ==> Engine.Exclusive(users))
      ensures nextFingerprintId == old(nextFingerprintId) && enrolled == old(enrolled)
    {
      ghost var db := State();
      var found := FindOne(users, ByFingerprintAndRole(fp, Student));
      if found.None? {
        return Err(NotFound);
      }
      var k := found.value;
      Invariants.UpdateAttendanceWithoutSession(db, fp, now, k);
      var s := users[k];
      users := users[k := s.(attendance := Present, lastUpdated := Some(now))];
      return Ok(s.username);
    }
  }
}
