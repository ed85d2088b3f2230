# Fingerprint attendance server — a Dafny model

This project models the core of a small attendance server. Users are teachers
and students. Each user is identified by a fingerprint id. A teacher's
fingerprint scan opens an attendance session and a second scan closes it.
Closing writes one completed-session row. A student's scan during an open
session marks the student present and writes one attendance record under the
session's handle. Reports count lectures per period: daily, weekly or monthly.
Downloading a report resets attendance. Two override endpoints force a
teacher's session flag or a student's mark without the scan's checks.

The project is split into the following modules:

- `Schema`: the user, session and attendance-record documents, and the error
  replies with their HTTP status.
- `Collections`: the document-store calls the handlers use (`findOne`, `find`,
  `updateMany` of the attendance field, `countDocuments`). It works over users
  kept in insertion order, and a filter document is a `Query` value.
- `Periods`: the period parameter, and the threshold timestamp each period
  selects.
- `Registration`: the signup handler's field check, and what the user schema
  enforces when the new document is saved.
- `Queries`: the read-only endpoints (lecture counts, the student snapshot, a
  student's summary, login and the fingerprint lookups).
- `Engine`: every write endpoint as a pure transition. It takes the store
  before the request and gives back the reply and the store after it.
- `Invariants`: what the scan promises, outcome by outcome. It also holds the
  store invariants: well-formedness, and at most one teacher with an open
  session. Scans and the other writes keep them; the session override breaks
  the second. Finally, it says how writes show up in the counts.
- `Server`: the class `Store`, which holds the collections and the in-memory
  enrollment counter as fields that its methods update in place. Each handler
  method (scan, signup, the two reports, the two overrides) is proved to
  produce exactly the reply and the new state of the matching `Engine`
  transition. All of them keep well-formedness, and all but the session
  override keep "at most one open session". The bulk `updateMany` reset is a
  loop over the users. The smaller write steps the scan is built from,
  enrollment and a process restart are stated directly on the fields.

ObjectIds are drawn from one counter, `nextOid`, which new users and new
session handles share. An attendance record's `sessionId` is the handle the
teacher's document holds while the session is open. It is not the id of the
completed-session row written at close, and the model keeps that distinction.

## Model

| member | source | states |
|---|---|---|
| Schema.Status | server.js:73-172 | 400 exactly for a missing field or fingerprint; 401 exactly for invalid credentials; 403 exactly for a session conflict or no open session; 404 exactly for an unknown fingerprint, teacher or student; 500 exactly for a refused store write; every error is a 4xx or 5xx |
| Collections.FindOne | server.js:118 | a found position holds a matching user and no earlier user matches; nothing is found exactly when no user matches |
| Collections.FindOneIsFirstMatch | server.js:118 | the first matching position is the one findOne returns |
| Collections.Find | server.js:279 | the result holds exactly the stored users the filter matches, and is no longer than the store |
| Collections.FindCounts | server.js:279 | each matching user is listed as many times as it is stored, and no other user is listed |
| Collections.MarkAbsentWhere | server.js:130 | same users in the same order; every matching user is absent; only the attendance field changes; non-matching users are untouched |
| Collections.Count | server.js:191-194 | a count never exceeds the number of rows |
| Collections.CountAppend | server.js:191-194 | appending a row raises a count by one exactly when the row satisfies the filter |
| Collections.CountIsIndexCount | server.js:191-194 | a count equals the number of positions whose row satisfies the filter |
| Collections.CountMonotone | server.js:247-249 | a filter that accepts more rows never counts fewer |
| Periods.ParsePeriod | server.js:180-188 | "weekly" and "monthly" select their windows; any other value, a missing one included, selects daily |
| Periods.Threshold | server.js:180-188 | the daily threshold is the start of the local day; the weekly one is now minus 604800000 ms and the monthly one now minus 2592000000 ms |
| Periods.ThresholdsNest | server.js:180-188 | monthly starts before weekly, weekly before today's midnight, and none after now |
| Registration.CheckFields | server.js:76-84 | a 400 exactly when a field the declared role requires is blank (four for a student, five with subject for a teacher, none for any other role) |
| Registration.SchemaRole | server.js:34 | no role stores the student default; "teacher" and "student" store themselves; any other value is refused |
| Registration.NewUser | server.js:31-43 | the save succeeds exactly when the role is valid and the four required strings are non-empty; the new user carries the request's fields, is absent and has no session |
| Registration.CheckedRequestIsStorable | server.js:76-88 | a request with a declared role that passes the handler's check is never refused by the schema |
| Queries.TeacherSessions | server.js:175-199 | the number of the teacher's session rows that ended at or after the period's threshold |
| Queries.StudentSnapshot | server.js:202-228 | exactly the students updated at or after the threshold or never updated, each as many times as it is stored |
| Queries.StudentSummary | server.js:231-258 | total lectures are all session rows ended in the period; attended lectures are the student's attended records over all time |
| Queries.TeacherCountWithinTotal | server.js:247-249 | one teacher's lecture count never exceeds the period's total |
| Queries.LongerPeriodCountsMore | server.js:180-188 | daily ≤ weekly ≤ monthly for the same teacher |
| Queries.WeeklyCountExample | server.js:183 | a lecture ended two days ago counts for the week, one ended ten days ago does not |
| Queries.AttendedMayExceedTotal | server.js:247-253 | a student who attended a lecture ten days ago has, for the daily period, more attended lectures than total lectures |
| Queries.FindUser | server.js:118-121 | the first matching user, or a 404 exactly when no user matches |
| Queries.Login | server.js:96-108 | the first user with these username, password and role, or a 401 exactly when there is none |
| Queries.TeacherSubject | server.js:357-365 | the subject of the first teacher with the fingerprint; a 404 exactly when no teacher has it |
| Queries.StudentUsername | server.js:368-376 | the username of the first student with the fingerprint; a 404 exactly when no student has it |
| Queries.RoleAndUsername | server.js:379-391 | role and username of the first user with the fingerprint; a 404 exactly when none has it |
| Engine.Scan | server.js:111-172 | every refused scan leaves the store unchanged |
| Engine.SignUp | server.js:73-93 | a 400 exactly when the field check fails; success exactly when the check passes, the schema accepts the user and the username is not taken; success appends the schema's user under the next id and touches no session or record; any refusal leaves the store unchanged and is a 400 or a store refusal |
| Engine.DownloadTeacherReport | server.js:270-311 | a 404 exactly when the first user with the id is missing or not a teacher, and then the store is unchanged; the report never touches sessions, records or the counter |
| Engine.DownloadStudentReport | server.js:314-344 | a 404 exactly when the first user with the id is missing or not a student, and then the store is unchanged; the report never touches sessions, records or the counter |
| Engine.UpdateSession | server.js:394-415 | a 404 exactly when no teacher has the fingerprint, and then the store is unchanged; otherwise the reply is whether active was "1"; no session row or record is written |
| Engine.UpdateAttendance | server.js:418-433 | a 404 exactly when no student has the fingerprint, and then the store is unchanged; no record is written and the counter is kept |
| Invariants.ScanRejectsUnknown | server.js:112-121 | a scan without a fingerprint is a 400, and one with an unknown fingerprint a 404; neither changes the store |
| Invariants.ScanConflict | server.js:123-126 | in a well-formed store with at most one open session, a teacher scanning while another teacher's session is open gets a 403 and the store is unchanged |
| Invariants.ScanOpens | server.js:128-135 | with no session open, a teacher's scan opens one at now with a fresh handle, resets every student to absent, leaves other teachers alone and writes no row |
| Invariants.ScanCloses | server.js:136-150 | the open teacher's scan appends one session row (stored start to now) and clears only that teacher's session fields |
| Invariants.ScanStudentRefused | server.js:152-167 | with no session open, a student's scan gets a 403 and the store is unchanged |
| Invariants.ScanStudentMarked | server.js:152-164 | during a session, a student's scan marks that student present at now and appends one attended record under the session's handle |
| Invariants.ScanKeepsIdentities | server.js:111-172 | no scan changes any user's id, username, role or fingerprint |
| Invariants.ScanPreservesWellFormed | server.js:111-172 | a scan keeps ids and usernames unique, session fields consistent with the open flag, and handles below the counter |
| Invariants.ScanPreservesExclusive | server.js:123-126 | no scan leaves two teachers with open sessions |
| Invariants.ScansPreserveInvariants | server.js:111-172 | any sequence of scans keeps both invariants |
| Invariants.StartedSessionHandleIsFresh | server.js:133 | a new session's handle differs from every handle in use and every handle already recorded |
| Invariants.EndedSessionIsCounted | server.js:141-144 | closing a session adds one to that teacher's lecture count for a period begun by then, and nothing to other teachers' counts |
| Invariants.MarkedAttendanceIsCounted | server.js:158-163 | marking a student adds one to that student's attended lectures and changes no other summary |
| Invariants.OpenMarkClose | server.js:111-172 | open, mark, close: the three replies, one session row from opening to closing time, one attended record under the handle, and the student still present |
| Invariants.OpenThenMark | server.js:128-164 | after open and mark, the store is well formed with the teacher still open and the student present |
| Invariants.CloseKeepsOthers | server.js:136-150 | closing changes no user other than the closing teacher |
| Invariants.KeepFirstMatch | server.js:118 | a write that keeps every fingerprint keeps each fingerprint's first match |
| Invariants.ExportResetMatchesOpenReset | server.js:304 | resetting present students gives the same users as resetting every student |
| Invariants.TeacherReportResets | server.js:279-306 | the report lists exactly the students, each as many times as it is stored; afterwards every student is absent, with nothing else changed, and every teacher is untouched |
| Invariants.ExportRoster | server.js:279 | the roster holds exactly the students, each as often as stored |
| Invariants.ExportReset | server.js:304 | the reset leaves every student absent and every teacher as it was |
| Invariants.ReportFoundExactly | server.js:274-277 | with unique ids, a teacher report is refused exactly when no teacher has the id, and a student report exactly when no student has it |
| Invariants.SecondTeacherReportShowsNoOnePresent | server.js:279-306 | a second teacher report in a row lists no student as present |
| Invariants.NoStudentPresentAfterReset | server.js:304 | after the export reset, no student in the store is present |
| Invariants.StudentReportResets | server.js:318-337 | afterwards only that student changes: absent, updated now |
| Invariants.TeacherReportPreservesInvariants | server.js:304 | the teacher-report reset keeps both invariants |
| Invariants.StudentReportPreservesInvariants | server.js:335-337 | the student-report reset keeps both invariants |
| Invariants.SignUpPreservesInvariants | server.js:86-88 | a signup keeps both invariants and appends one closed, absent user with a fresh id |
| Invariants.UpdateSessionPreservesWellFormed | server.js:394-415 | the session override keeps the store well formed |
| Invariants.UpdateSessionSets | server.js:398-410 | the first teacher with the fingerprint gets the flag active == "1", with start now and a fresh handle (counter advanced) when opening and neither when closing; no other user changes |
| Invariants.TwoOpenTeachers | server.js:123-126 | with two open teachers, the conflict check sees only the first: that teacher's scan closes their session and leaves the other open, and the other's scan is a 403 |
| Invariants.UpdateSessionBreaksExclusive | server.js:398-410 | forcing a second teacher open succeeds and leaves two open sessions |
| Invariants.UpdateSessionCloseIsNotCounted | server.js:406-410 | closing through the override writes no session row, so no count changes |
| Invariants.UpdateAttendanceWithoutSession | server.js:418-433 | the attendance override marks the first such student present even with no session open, writes no record and keeps both invariants |
| Server.Store.constructor | server.js:66 | empty collections, and the enrollment counter at 1 |
| Server.Store.ResetWhere | server.js:130 | the users become the filtered reset of the old users; nothing else changes |
| Server.Store.Enroll | server.js:261-267 | returns the counter and advances it by one, so no id is handed out twice within one process; the collections are untouched |
| Server.Store.Restart | server.js:66 | the collections persist while the counter is back at 1, so once any id was handed out the next one repeats an earlier id |
| Server.Store.Scan | server.js:111-172 | reply and new state are the scan transition's; both invariants are kept |
| Server.Store.OpenSession | server.js:130-134 | every student reset, then the teacher open since now under a handle minted from the counter |
| Server.Store.CloseSession | server.js:137-148 | one session row appended, then only the teacher's session fields cleared |
| Server.Store.MarkPresent | server.js:155-163 | only the student marked present at now, then one attended record appended under the handle |
| Server.Store.SignUp | server.js:73-93 | reply and new state are the signup transition's; both invariants are kept |
| Server.Store.DownloadTeacherReport | server.js:270-311 | reply and new state are the teacher-report transition's; both invariants are kept |
| Server.Store.DownloadStudentReport | server.js:314-344 | reply and new state are the student-report transition's; both invariants are kept |
| Server.Store.UpdateSession | server.js:394-415 | reply and new state are the override's; well-formedness is kept (exclusivity is not) |
| Server.Store.UpdateAttendance | server.js:418-433 | reply and new state are the override's; both invariants are kept |

## Left out

- HTTP plumbing: routing, headers, CORS, JSON bodies, the static pages and the catch-all route that serves the signup page.
- The connection to the document store, and its failures (the 500 answers from a store error, other than the schema refusals modelled as `Rejected`).
- PDF layout. The teacher report returns the students in store order; the sort by username is not modelled.
- Concurrency. Each request runs to completion before the next one starts. The store updates that the report endpoints do not wait for are modelled as completing at once.
- Dates. `now` is a parameter, and the start of the local calendar day is an abstract `dayStart` with at most 25 hours to `now`. Time zones and calendars are not modelled.
- ObjectId internals. Ids come from one counter. Completed-session rows and attendance records carry no ids of their own.
- `/users`, which lists every user unchanged: it is the identity on the store.
- A missing `fingerprintId` query parameter on the lookup and override endpoints. Its `toString()` call throws outside any `try` (server.js:359, 370, 381, 396 and 420), so the request gets no reply at all; the model has no such outcome. The handler's promise is rejected, and Express 4 (the `'*'` route at server.js:445 uses its syntax) does not catch it. On Node 15 or later an unhandled rejection ends the process. A new process starts the enrollment counter again at 1, which is what `Server.Store.Restart` models.
- An id that is not a valid ObjectId, which makes `findById` fail inside the handler's `try` and answer 500.
- The `subject` parameter of the student snapshot, which the query ignores (the model ignores it too).
- The enrollment counter's floating-point representation. It is an unbounded natural number here.
- Server.Store.Enroll: ids are unique only within one process. The counter is not persisted, and `Restart` shows it starting again at 1 while the users stay.
- Fingerprint uniqueness. The user schema does not declare fingerprint ids unique, so every lookup takes the first match in store order, as the model does.
- Queries.Login: a username, password or role missing from the login body is modelled as "", which matches no stored user, so the model answers 401. What the document store does with an undefined value in the filter (server.js:99) depends on its version and is not modelled.
- Password hashing. The server compares passwords as stored; so does the model.
