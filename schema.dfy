/** The documents the attendance server keeps: users (teachers and students),
    completed teacher sessions and per-student attendance records, together
    with the failures a request handler answers with. */
module Schema {

  datatype Option<+T> = None | Some(value: T)

  /** Failures reported to the caller; `Status` gives the HTTP status of each. */
  datatype ApiError =
    | MissingFields        // signup without a field its role needs
    | MissingFingerprint   // scan request without a fingerprintId
    | InvalidCredentials   // login with no matching user
    | SessionConflict      // another teacher holds the open session
    | SessionNotOpen       // student scan while no session is open
    | NotFound             // unknown fingerprint, teacher or student
    | Rejected             // the document store refused the write (schema validation, duplicate key)

  function Status(e: ApiError): (code: int)
    ensures code == 400 <==> e == MissingFields || e == MissingFingerprint
    ensures code == 401 <==> e == InvalidCredentials
    ensures code == 403 <==> e == SessionConflict || e == SessionNotOpen
    ensures code == 404 <==> e == NotFound
    ensures code == 500 <==> e == Rejected
    ensures 400 <= code < 600
  {
    match e
    case MissingFields => 400
    case MissingFingerprint => 400
    case InvalidCredentials => 401
    case SessionConflict => 403
    case SessionNotOpen => 403
    case NotFound => 404
    case Rejected => 500
  }

  datatype Result<+T> = Ok(value: T) | Err(error: ApiError)

  datatype Role = Teacher | Student

  /** The `attendance` field: only "present" and "absent" are ever written. */
  datatype Mark = Present | Absent

  function RoleName(r: Role): string
  {
    match r
    case Teacher => "teacher"
    case Student => "student"
  }

  /** A user document. `id` is its ObjectId; timestamps are milliseconds;
      an unset optional field (`lastUpdated`, `sessionStart`,
      `activeSessionId`) is `None`. `subject` is "" when none was given. */
  datatype User = User(
    id: nat,
    username: string,
    name: string,
    password: string,
    role: Role,
    fingerprintId: string,
    subject: string,
    attendance: Mark,
    lastUpdated: Option<int>,
    sessionOpen: bool,
    sessionStart: Option<int>,
    activeSessionId: Option<nat>)

  /** One completed teacher session, written once when the session closes. */
  datatype SessionRow = SessionRow(teacherId: nat, sessionStart: int, sessionEnd: int)

  /** "This student was present during the session with this handle". */
  datatype AttendanceRecord = AttendanceRecord(studentId: nat, sessionId: nat, attended: bool)

  predicate IsOpenTeacher(u: User)
  {
    u.role == Teacher && u.sessionOpen
  }
}
