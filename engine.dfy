/** The attendance-session engine and the other writes to the store, as
    functions from the store before a request to the reply and the store
    after it. `now` is the request's clock reading; `nextOid` is the next
    fresh ObjectId, shared by new users and new session handles. */
module Engine {
  import opened Schema
  import opened Collections
  import Registration

  datatype Db = Db(
    users: seq<User>,
    sessions: seq<SessionRow>,
    records: seq<AttendanceRecord>,
    nextOid: nat)

  /** What the store keeps true of every user: ids are below the counter,
      a session flag comes with its start time and handle and clears with
      them, and only teachers hold sessions. */
  predicate UserWellFormed(u: User, nextOid: nat)
  {
    && u.id < nextOid
    && (u.sessionOpen <==> u.sessionStart.Some?)
    && (u.sessionOpen <==> u.activeSessionId.Some?)
    && (u.sessionOpen ==> u.role == Teacher)
    && (u.activeSessionId.Some? ==> u.activeSessionId.value < nextOid)
  }

  predicate WellFormed(db: Db)
  {
    && (forall i, j :: 0 <= i < j < |db.users| ==> db.users[i].id != db.users[j].id)
    && (forall i, j :: 0 <= i < j < |db.users| ==> db.users[i].username != db.users[j].username)
    && (forall k :: 0 <= k < |db.users| ==> UserWellFormed(db.users[k], db.nextOid))
    && (forall k :: 0 <= k < |db.records| ==> db.records[k].sessionId < db.nextOid)
  }

  /** At most one teacher has an open attendance session. */
  predicate Exclusive(us: seq<User>)
  {
    forall i, j :: 0 <= i < |us| && 0 <= j < |us| && IsOpenTeacher(us[i]) && IsOpenTeacher(us[j]) ==> i == j
  }

  datatype Reply =
    | SessionStarted(subject: string)
    | SessionEnded
    | AttendanceMarked(rollNo: string)

  /** POST /scan. The scanning user is the first with the fingerprint. A
      teacher is refused while another teacher's session is open, opens a
      session (every student reset to absent, a fresh handle minted) when
      they hold none, and otherwise closes theirs, writing one Session row.
      A student is marked present, with one AttendanceRecord under the open
      session's handle, when the first open teacher has a handle. */
  function Scan(db: Db, fp: string, now: int): (r: (Result<Reply>, Db))
    ensures r.0.Err? ==> r.1 == db
  {
    if fp == "" then (Err(MissingFingerprint), db)
    else match FindOne(db.users, ByFingerprint(fp))
      case None => (Err(NotFound), db)
      case Some(i) =>
        var user := db.users[i];
        var active := FindOne(db.users, OpenTeacher);
        if user.role == Teacher then
          if active.Some? && db.users[active.value].id != user.id then
            (Err(SessionConflict), db)
          else if !user.sessionOpen then
            var started := user.(sessionOpen := true, sessionStart := Some(now), activeSessionId := Some(db.nextOid));
            (Ok(SessionStarted(user.subject)),
             db.(users := MarkAbsentWhere(db.users, Students)[i := started], nextOid := db.nextOid + 1))
          else match user.sessionStart
            // the Session schema requires a start time: the save is refused
            case None => (Err(Rejected), db)
            case Some(start) =>
              var closed := user.(sessionOpen := false, sessionStart := None, activeSessionId := None);
              (Ok(SessionEnded),
               db.(sessions := db.sessions + [SessionRow(user.id, start, now)], users := db.users[i := closed]))
        else
          if active.Some? && db.users[active.value].activeSessionId.Some? then
            var marked := user.(attendance := Present, lastUpdated := Some(now));
            var record := AttendanceRecord(user.id, db.users[active.value].activeSessionId.value, true);
            (Ok(AttendanceMarked(user.username)),
             db.(users := db.users[i := marked], records := db.records + [record]))
          else
            (Err(SessionNotOpen), db)
  }

  datatype ScanInput = ScanInput(fingerprintId: string, now: int)

  /** A sequence of scans, one after another. */
  function RunScans(db: Db, scans: seq<ScanInput>): Db
    decreases |scans|
  {
    if scans == [] then db
    else RunScans(Scan(db, scans[0].fingerprintId, scans[0].now).1, scans[1..])
  }

  /** POST /signup: the handler's field check (400), then the save, which
      the schema or the unique username index can refuse (500). */
  function SignUp(db: Db, req: Registration.SignupRequest): (r: (Result<()>, Db))
    ensures r.0.Err? ==> r.1 == db && (r.0.error == MissingFields || r.0.error == Rejected)
    ensures r.0 == Err(MissingFields) <==> Registration.CheckFields(req).Some?
    ensures r.0.Ok? <==>
      && Registration.CheckFields(req).None?
      && Registration.NewUser(req, db.nextOid).Ok?
      && forall u :: u in db.users ==> u.username != req.username
    ensures r.0.Ok? ==>
      && r.1.users == db.users + [Registration.NewUser(req, db.nextOid).value]
      && r.1.nextOid == db.nextOid + 1
      && r.1.sessions == db.sessions && r.1.records == db.records
  {
    if Registration.CheckFields(req).Some? then (Err(MissingFields), db)
    else match Registration.NewUser(req, db.nextOid)
      case Err(e) => (Err(e), db)
      case Ok(u) =>
        if FindOne(db.users, ByUsername(u.username)).Some? then (Err(Rejected), db)
        else (Ok(()), db.(users := db.users + [u], nextOid := db.nextOid + 1))
  }

  /** GET /download-pdf/:teacherId: the report lists the students as they
      were; afterwards every present student is reset to absent. */
  function DownloadTeacherReport(db: Db, teacherId: nat): (r: (Result<seq<User>>, Db))
    ensures r.0.Err? ==> r.1 == db && r.0.error == NotFound
    ensures r.0.Ok? <==> exists k :: FirstMatch(db.users, ById(teacherId), k) && db.users[k].role == Teacher
    ensures r.1.sessions == db.sessions && r.1.records == db.records && r.1.nextOid == db.nextOid
  {
    match FindOne(db.users, ById(teacherId))
    case None => (Err(NotFound), db)
    case Some(k) =>
      if db.users[k].role != Teacher then (Err(NotFound), db)
      else (Ok(Find(db.users, Students)), db.(users := MarkAbsentWhere(db.users, PresentStudents)))
  }

  /** GET /download-pdf/student/:studentId: afterwards that student is
      absent, updated now. */
  function DownloadStudentReport(db: Db, studentId: nat, now: int): (r: (Result<()>, Db))
    ensures r.0.Err? ==> r.1 == db && r.0.error == NotFound
    ensures r.0.Ok? <==> exists k :: FirstMatch(db.users, ById(studentId), k) && db.users[k].role == Student
    ensures r.1.sessions == db.sessions && r.1.records == db.records && r.1.nextOid == db.nextOid
  {
    match FindOne(db.users, ById(studentId))
    case None => (Err(NotFound), db)
    case Some(k) =>
      if db.users[k].role != Student then (Err(NotFound), db)
      else (Ok(()), db.(users := db.users[k := db.users[k].(attendance := Absent, lastUpdated := Some(now))]))
  }

  /** GET /update-session: force the first teacher with the fingerprint
      open ("1") or closed (anything else), without the scan's checks,
      without resetting students and without writing a Session row. */
  function UpdateSession(db: Db, fp: string, active: string, now: int): (r: (Result<bool>, Db))
    ensures r.0.Err? ==> r.1 == db && r.0.error == NotFound
    ensures r.0.Ok? <==> exists u :: u in db.users && u.fingerprintId == fp && u.role == Teacher
    ensures r.0.Ok? ==> r.0.value == (active == "1")
    ensures r.1.sessions == db.sessions && r.1.records == db.records
  {
    match FindOne(db.users, ByFingerprintAndRole(fp, Teacher))
    case None => (Err(NotFound), db)
    case Some(k) =>
      var t := db.users[k];
      if active == "1" then
        var started := t.(sessionOpen := true, sessionStart := Some(now), activeSessionId := Some(db.nextOid));
        (Ok(true), db.(users := db.users[k := started], nextOid := db.nextOid + 1))
      else
        (Ok(false), db.(users := db.users[k := t.(sessionOpen := false, sessionStart := None, activeSessionId := None)]))
  }

  /** GET /update-attendance: mark the first student with the fingerprint
      present, whether or not a session is open, writing no record. */
  function UpdateAttendance(db: Db, fp: string, now: int): (r: (Result<string>, Db))
    ensures r.0.Err? ==> r.1 == db && r.0.error == NotFound
    ensures r.0.Ok? <==> exists u :: u in db.users && u.fingerprintId == fp && u.role == Student
    ensures r.1.sessions == db.sessions && r.1.records == db.records && r.1.nextOid == db.nextOid
  {
    match FindOne(db.users, ByFingerprintAndRole(fp, Student))
    case None => (Err(NotFound), db)
    case Some(k) =>
      var s := db.users[k];
      (Ok(s.username), db.(users := db.users[k := s.(attendance := Present, lastUpdated := Some(now))]))
  }
}
