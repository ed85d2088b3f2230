/** The document-store operations the handlers use, over the users kept in
    insertion order: `findOne`, `find`, `updateMany(..., {attendance: "absent"})`
    and `countDocuments`. A `Query` is the filter document of a call. */
module Collections {
  import opened Schema

  datatype Query =
    | ByFingerprint(fp: string)                          // { fingerprintId }
    | ByFingerprintAndRole(fp: string, role: Role)      // { fingerprintId, role }
    | OpenTeacher                                        // { role: "teacher", attendanceSessionOpen: true }
    | ById(id: nat)                                      // findById
    | ByUsername(name: string)                           // the unique index on username
    | ByCredentials(login: string, password: string, roleName: string)  // { username, password, role }
    | Students                                           // { role: "student" }
    | PresentStudents                                    // { role: "student", attendance: "present" }
    | StudentsSince(threshold: int)                      // students with lastUpdated >= threshold or unset

  predicate Matches(u: User, q: Query)
  {
    match q
    case ByFingerprint(fp) => u.fingerprintId == fp
    case ByFingerprintAndRole(fp, role) => u.fingerprintId == fp && u.role == role
    case OpenTeacher => IsOpenTeacher(u)
    case ById(id) => u.id == id
    case ByUsername(name) => u.username == name
    case ByCredentials(name, password, role) =>
      u.username == name && u.password == password && RoleName(u.role) == role
    case Students => u.role == Student
    case PresentStudents => u.role == Student && u.attendance == Present
    case StudentsSince(t) => u.role == Student && (u.lastUpdated.None? || u.lastUpdated.value >= t)
  }

  /** Position `k` holds the first user `q` matches. */
  predicate FirstMatch(us: seq<User>, q: Query, k: int)
  {
    0 <= k < |us| && Matches(us[k], q) && forall j :: 0 <= j < k ==> !Matches(us[j], q)
  }

  /** `findOne`: the position of the first matching user, if any. */
  function FindOne(us: seq<User>, q: Query): (r: Option<nat>)
    ensures r.Some? ==> r.value < |us| && Matches(us[r.value], q)
    ensures r.Some? ==> forall k :: 0 <= k < r.value ==> !Matches(us[k], q)
    ensures r.None? <==> forall k :: 0 <= k < |us| ==> !Matches(us[k], q)
  {
    if us == [] then None
    else if Matches(us[0], q) then Some(0)
    else match FindOne(us[1..], q)
      case None => None
      case Some(k) => Some(k + 1)
  }

  /** `findOne` finds exactly the first match. */
  lemma FindOneIsFirstMatch(us: seq<User>, q: Query, k: int)
    requires FirstMatch(us, q, k)
    ensures FindOne(us, q) == Some(k)
  {
  }

  /** `find`: every matching user, in store order. */
  function Find(us: seq<User>, q: Query): (r: seq<User>)
    ensures |r| <= |us|
    ensures forall u :: u in r <==> u in us && Matches(u, q)
  {
    if us == [] then []
    else
      var init, last := us[..|us| - 1], us[|us| - 1];
      assert us == init + [last];
      Find(init, q) + (if Matches(last, q) then [last] else [])
  }

  /** `find` lists each matching user as often as it is stored, and no other. */
  lemma {:induction false} FindCounts(us: seq<User>, q: Query)
    ensures forall u :: multiset(Find(us, q))[u] == if Matches(u, q) then multiset(us)[u] else 0
  {
    if us != [] {
      var init, last := us[..|us| - 1], us[|us| - 1];
      assert us == init + [last];
      FindCounts(init, q);
    }
  }

  /** `updateMany(q, { attendance: "absent" })`: every matching user ends
      absent and no other field and no other user changes. */
  function MarkAbsentWhere(us: seq<User>, q: Query): (r: seq<User>)
    ensures |r| == |us|
    ensures forall k :: 0 <= k < |us| ==> r[k] == us[k].(attendance := r[k].attendance)
    ensures forall k :: 0 <= k < |us| && Matches(us[k], q) ==> r[k].attendance == Absent
    ensures forall k :: 0 <= k < |us| && !Matches(us[k], q) ==> r[k] == us[k]
  {
    seq(|us|, k requires 0 <= k < |us| =>
      if Matches(us[k], q) then us[k].(attendance := Absent) else us[k])
  }

  /** `countDocuments`: how many rows satisfy `p`. */
  function Count<T>(s: seq<T>, p: T -> bool): (n: nat)
    ensures n <= |s|
  {
    if s == [] then 0
    else Count(s[..|s| - 1], p) + (if p(s[|s| - 1]) then 1 else 0)
  }

  /** The positions of the rows that satisfy `p`. */
  ghost function IndicesWhere<T>(s: seq<T>, p: T -> bool): set<int>
  {
    set k | 0 <= k < |s| && p(s[k])
  }

  lemma CountAppend<T>(s: seq<T>, x: T, p: T -> bool)
    ensures Count(s + [x], p) == Count(s, p) + (if p(x) then 1 else 0)
  {
    assert (s + [x])[..|s|] == s;
  }

  /** Counting is exactly the number of positions whose row satisfies `p`. */
  lemma {:induction false} CountIsIndexCount<T>(s: seq<T>, p: T -> bool)
    ensures Count(s, p) == |IndicesWhere(s, p)|
  {
    if s != [] {
      var n := |s| - 1;
      var init := s[..n];
      CountIsIndexCount(init, p);
      if p(s[n]) {
        assert IndicesWhere(s, p) == IndicesWhere(init, p) + {n};
        assert n !in IndicesWhere(init, p);
      } else {
        assert IndicesWhere(s, p) == IndicesWhere(init, p);
      }
    }
  }

  /** A filter that accepts more rows never counts fewer. */
  lemma {:induction false} CountMonotone<T>(s: seq<T>, p: T -> bool, q: T -> bool)
    requires forall k :: 0 <= k < |s| && p(s[k]) ==> q(s[k])
    ensures Count(s, p) <= Count(s, q)
  {
    if s != [] {
      CountMonotone(s[..|s| - 1], p, q);
    }
  }
}
