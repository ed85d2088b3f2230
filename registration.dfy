/** Signup: the handler's own field check, then what the user schema
    enforces when the new document is saved. A blank string ("") stands for a
    field that is missing or empty, both of which the handler treats as absent. */
module Registration {
  import opened Schema

  datatype SignupRequest = SignupRequest(
    username: string,
    name: string,
    password: string,
    role: Option<string>,     // None when the request carries no role
    fingerprintId: string,
    subject: string)

  datatype Field = Username | Name | Password | FingerprintId | Subject

  function FieldValue(req: SignupRequest, f: Field): string
  {
    match f
    case Username => req.username
    case Name => req.name
    case Password => req.password
    case FingerprintId => req.fingerprintId
    case Subject => req.subject
  }

  /** The fields the handler insists on, by declared role; a request with
      any other role (or none) is not checked here. */
  function RequiredFields(role: Option<string>): set<Field>
  {
    if role == Some("student") then {Username, Name, Password, FingerprintId}
    else if role == Some("teacher") then {Username, Name, Password, FingerprintId, Subject}
    else {}
  }

  /** The handler's check: a 400 answer exactly when a field the declared
      role requires is blank. */
  function CheckFields(req: SignupRequest): (r: Option<ApiError>)
    ensures r.Some? <==> exists f :: f in RequiredFields(req.role) && FieldValue(req, f) == ""
    ensures r.Some? ==> r.value == MissingFields && Status(r.value) == 400
  {
    assert FieldValue(req, Username) == req.username && FieldValue(req, Name) == req.name;
    assert FieldValue(req, Password) == req.password && FieldValue(req, FingerprintId) == req.fingerprintId;
    assert FieldValue(req, Subject) == req.subject;
    if req.role == Some("student") then
      if req.username == "" || req.name == "" || req.password == "" || req.fingerprintId == "" then
        Some(MissingFields)
      else None
    else if req.role == Some("teacher") then
      if req.username == "" || req.name == "" || req.password == "" || req.fingerprintId == "" || req.subject == "" then
        Some(MissingFields)
      else None
    else None
  }

  /** The role the schema stores: the default when none is sent, None for a
      value outside the enum. */
  function SchemaRole(role: Option<string>): (r: Option<Role>)
    ensures role.None? ==> r == Some(Student)
    ensures r.Some? ==> role.None? || role == Some(RoleName(r.value))
    ensures r.None? <==> role.Some? && role.value != "teacher" && role.value != "student"
  {
    match role
    case None => Some(Student)
    case Some(s) =>
      if s == "teacher" then Some(Teacher)
      else if s == "student" then Some(Student)
      else None
  }

  /** The document a save creates, with ObjectId `id`; Rejected when the
      schema's enum or required-field checks fail. A new user is absent,
      never updated and holds no session. */
  function NewUser(req: SignupRequest, id: nat): (r: Result<User>)
    ensures r.Ok? <==>
      SchemaRole(req.role).Some? &&
      req.username != "" && req.name != "" && req.password != "" && req.fingerprintId != ""
    ensures r.Err? ==> r.error == Rejected
    ensures r.Ok? ==>
      var u := r.value;
      && u.id == id && u.username == req.username && u.name == req.name
      && u.password == req.password && u.fingerprintId == req.fingerprintId
      && u.subject == req.subject && Some(u.role) == SchemaRole(req.role)
      && u.attendance == Absent && u.lastUpdated.None?
      && !u.sessionOpen && u.sessionStart.None? && u.activeSessionId.None?
  {
    match SchemaRole(req.role)
    case None => Err(Rejected)
    case Some(role) =>
      if req.username == "" || req.name == "" || req.password == "" || req.fingerprintId == "" then
        Err(Rejected)
      else
        Ok(User(id, req.username, req.name, req.password, role, req.fingerprintId, req.subject,
                Absent, None, false, None, None))
  }

  /** A request that passes the handler's check for a declared role also
      satisfies the schema: it is never rejected at save for a blank field. */
  lemma CheckedRequestIsStorable(req: SignupRequest, id: nat)
    requires req.role == Some("student") || req.role == Some("teacher")
    requires CheckFields(req).None?
    ensures NewUser(req, id).Ok?
  {
    assert Username in RequiredFields(req.role) && Name in RequiredFields(req.role);
    assert Password in RequiredFields(req.role) && FingerprintId in RequiredFields(req.role);
  }
}
