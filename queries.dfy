/** The read-only endpoints: lecture counts per period, the teacher's view
    of student attendance, a student's own summary, login and the lookups by
    fingerprint. */
module Queries {
  import opened Schema
  import opened Collections
  import opened Periods

  /** Session filter `{ teacherId, sessionEnd: { $gte: threshold } }`. */
  function OfTeacherSince(teacherId: nat, threshold: int): SessionRow -> bool
  {
    (r: SessionRow) => r.teacherId == teacherId && r.sessionEnd >= threshold
  }

  /** Session filter `{ sessionEnd: { $gte: threshold } }`. */
  function EndedSince(threshold: int): SessionRow -> bool
  {
    (r: SessionRow) => r.sessionEnd >= threshold
  }

  /** Attendance-record filter `{ studentId, attended: true }`. */
  function AttendedBy(studentId: nat): AttendanceRecord -> bool
  {
    (r: AttendanceRecord) => r.studentId == studentId && r.attended
  }

  /** GET /teacher-sessions/:teacherId: the number of the teacher's completed
      sessions that ended at or after the period's threshold. */
  function TeacherSessions(sessions: seq<SessionRow>, teacherId: nat, period: string, c: Clock): (total: nat)
    ensures total == |set k | 0 <= k < |sessions| && sessions[k].teacherId == teacherId
                                && sessions[k].sessionEnd >= Threshold(ParsePeriod(period), c)|
  {
    var p := OfTeacherSince(teacherId, Threshold(ParsePeriod(period), c));
    CountIsIndexCount(sessions, p);
    assert IndicesWhere(sessions, p) ==
      set k | 0 <= k < |sessions| && sessions[k].teacherId == teacherId
              && sessions[k].sessionEnd >= Threshold(ParsePeriod(period), c);
    Count(sessions, p)
  }

  /** GET /student-attendance: every student updated at or after the
      period's threshold or never updated. The `subject` parameter the
      endpoint receives does not take part in the query. */
  function StudentSnapshot(users: seq<User>, period: string, c: Clock): (r: seq<User>)
    ensures forall u :: u in r <==>
      u in users && u.role == Student &&
      (u.lastUpdated.None? || u.lastUpdated.value >= Threshold(ParsePeriod(period), c))
    ensures forall u :: multiset(r)[u] == (if Matches(u, StudentsSince(Threshold(ParsePeriod(period), c)))
                                           then multiset(users)[u] else 0)
  {
    FindCounts(users, StudentsSince(Threshold(ParsePeriod(period), c)));
    Find(users, StudentsSince(Threshold(ParsePeriod(period), c)))
  }

  datatype Summary = Summary(totalLectures: nat, attendedLectures: nat)

  /** GET /student-attendance/:studentId: `totalLectures` counts every
      teacher's sessions ended in the period; `attendedLectures` counts the
      student's attended records over all time. */
  function StudentSummary(sessions: seq<SessionRow>, records: seq<AttendanceRecord>, studentId: nat,
                          period: string, c: Clock): (s: Summary)
    ensures s.totalLectures ==
      |set k | 0 <= k < |sessions| && sessions[k].sessionEnd >= Threshold(ParsePeriod(period), c)|
    ensures s.attendedLectures ==
      |set k | 0 <= k < |records| && records[k].studentId == studentId && records[k].attended|
  {
    var ended := EndedSince(Threshold(ParsePeriod(period), c));
    var attended := AttendedBy(studentId);
    CountIsIndexCount(sessions, ended);
    CountIsIndexCount(records, attended);
    assert IndicesWhere(sessions, ended) ==
      set k | 0 <= k < |sessions| && sessions[k].sessionEnd >= Threshold(ParsePeriod(period), c);
    assert IndicesWhere(records, attended) ==
      set k | 0 <= k < |records| && records[k].studentId == studentId && records[k].attended;
    Summary(Count(sessions, ended), Count(records, attended))
  }

  /** A teacher's own lecture count never exceeds the system-wide total a
      student summary reports for the same period. */
  lemma TeacherCountWithinTotal(sessions: seq<SessionRow>, records: seq<AttendanceRecord>,
                                teacherId: nat, studentId: nat, period: string, c: Clock)
    ensures TeacherSessions(sessions, teacherId, period, c)
         <= StudentSummary(sessions, records, studentId, period, c).totalLectures
  {
    var t := Threshold(ParsePeriod(period), c);
    CountMonotone(sessions, OfTeacherSince(teacherId, t), EndedSince(t));
  }

  /** Counting over a longer period never gives fewer lectures. */
  lemma LongerPeriodCountsMore(sessions: seq<SessionRow>, teacherId: nat, c: Clock)
    requires ValidClock(c)
    ensures TeacherSessions(sessions, teacherId, "daily", c) <= TeacherSessions(sessions, teacherId, "weekly", c)
    ensures TeacherSessions(sessions, teacherId, "weekly", c) <= TeacherSessions(sessions, teacherId, "monthly", c)
  {
    ThresholdsNest(c);
    CountMonotone(sessions, OfTeacherSince(teacherId, Threshold(Daily, c)), OfTeacherSince(teacherId, Threshold(Weekly, c)));
    CountMonotone(sessions, OfTeacherSince(teacherId, Threshold(Weekly, c)), OfTeacherSince(teacherId, Threshold(Monthly, c)));
  }

  /** A weekly count for a teacher whose sessions ended two and ten days ago is one. */
  lemma WeeklyCountExample(teacherId: nat, c: Clock)
    ensures TeacherSessions([SessionRow(teacherId, c.now - 2 * DayMs - HourMs, c.now - 2 * DayMs),
                             SessionRow(teacherId, c.now - 10 * DayMs - HourMs, c.now - 10 * DayMs)],
                            teacherId, "weekly", c) == 1
  {
    var rows := [SessionRow(teacherId, c.now - 2 * DayMs - HourMs, c.now - 2 * DayMs),
                 SessionRow(teacherId, c.now - 10 * DayMs - HourMs, c.now - 10 * DayMs)];
    var p := OfTeacherSince(teacherId, Threshold(Weekly, c));
    assert rows[..1] == [rows[0]] && [rows[0]][..0] == [];
    assert Count(rows, p) == Count([rows[0]], p) + 0;
  }

  /** Attended lectures are counted over all time and total lectures only
      over the period: a student present at one lecture that ended ten days
      ago has, for the daily period, one attended lecture out of none. */
  lemma AttendedMayExceedTotal(teacherId: nat, studentId: nat, handle: nat, c: Clock)
    requires ValidClock(c)
    ensures var s := StudentSummary([SessionRow(teacherId, c.now - 10 * DayMs - HourMs, c.now - 10 * DayMs)],
                                    [AttendanceRecord(studentId, handle, true)], studentId, "daily", c);
      s.totalLectures == 0 && s.attendedLectures == 1 && s.attendedLectures > s.totalLectures
  {
    var rows := [SessionRow(teacherId, c.now - 10 * DayMs - HourMs, c.now - 10 * DayMs)];
    var recs := [AttendanceRecord(studentId, handle, true)];
    assert rows[..0] == [] && recs[..0] == [];
    assert Count(rows, EndedSince(Threshold(Daily, c))) == 0;
    assert Count(recs, AttendedBy(studentId)) == 1;
  }

  /** `findOne` answered with the user document, or NotFound. */
  function FindUser(users: seq<User>, q: Query): (r: Result<User>)
    ensures r.Ok? ==> exists k :: FirstMatch(users, q, k) && r.value == users[k]
    ensures r.Err? <==> forall u :: u in users ==> !Matches(u, q)
    ensures r.Err? ==> r.error == NotFound
  {
    match FindOne(users, q)
    case None => Err(NotFound)
    case Some(k) => Ok(users[k])
  }

  /** POST /login: the first user with these credentials, or 401. */
  function Login(users: seq<User>, username: string, password: string, role: string): (r: Result<User>)
    ensures r.Ok? ==> exists k :: FirstMatch(users, ByCredentials(username, password, role), k) && r.value == users[k]
    ensures r.Ok? ==> r.value.username == username && r.value.password == password && RoleName(r.value.role) == role
    ensures r.Err? <==> forall u :: u in users ==>
      !(u.username == username && u.password == password && RoleName(u.role) == role)
    ensures r.Err? ==> r.error == InvalidCredentials && Status(r.error) == 401
  {
    match FindUser(users, ByCredentials(username, password, role))
    case Ok(u) => Ok(u)
    case Err(_) => Err(InvalidCredentials)
  }

  /** GET /get-teacher-subject. */
  function TeacherSubject(users: seq<User>, fp: string): (r: Result<string>)
    ensures r.Ok? <==> exists u :: u in users && u.fingerprintId == fp && u.role == Teacher
    ensures r.Ok? ==> exists k :: FirstMatch(users, ByFingerprintAndRole(fp, Teacher), k) && r.value == users[k].subject
    ensures r.Err? ==> r.error == NotFound
  {
    match FindUser(users, ByFingerprintAndRole(fp, Teacher))
    case Ok(t) => Ok(t.subject)
    case Err(e) => Err(e)
  }

  /** GET /get-student-details: the student's username (roll number). */
  function StudentUsername(users: seq<User>, fp: string): (r: Result<string>)
    ensures r.Ok? <==> exists u :: u in users && u.fingerprintId == fp && u.role == Student
    ensures r.Ok? ==> exists k :: FirstMatch(users, ByFingerprintAndRole(fp, Student), k) && r.value == users[k].username
    ensures r.Err? ==> r.error == NotFound
  {
    match FindUser(users, ByFingerprintAndRole(fp, Student))
    case Ok(s) => Ok(s.username)
    case Err(e) => Err(e)
  }

  /** GET /get-user: role and username of the first user with the fingerprint. */
  function RoleAndUsername(users: seq<User>, fp: string): (r: Result<(Role, string)>)
    ensures r.Ok? <==> exists u :: u in users && u.fingerprintId == fp
    ensures r.Ok? ==> exists k :: FirstMatch(users, ByFingerprint(fp), k) && r.value == (users[k].role, users[k].username)
    ensures r.Err? ==> r.error == NotFound
  {
    match FindUser(users, ByFingerprint(fp))
    case Ok(u) => Ok((u.role, u.username))
    case Err(e) => Err(e)
  }
}
