/** The request-level logic of the three resources: the two permission classes, the
    rows each principal may see of each resource, and the custom actions (a faculty's
    students, enrolling a student, updating a student, a student's subjects, and the
    owner a new subject gets). */
module Views {
  import opened Models
  import opened Database
  import opened Serializers

  /** The requester as authentication resolved it. */
  datatype Principal = Anonymous | Member(id: UserId, isSuperuser: bool, userType: UserType)

  datatype Method = GET | HEAD | OPTIONS | POST | PUT | PATCH | DELETE

  predicate IsSafeMethod(m: Method) {
    m == GET || m == HEAD || m == OPTIONS
  }

  /** An error body: a detail message, or the serializer's per-field errors. */
  datatype Detail = Message(text: string) | FieldErrors

  datatype Response<T> = Ok(status: int, body: T) | Fail(status: int, detail: Detail)

  /** The rows a query yields, or the exception it raises (a server error). */
  datatype Query<T> = Rows(rows: T) | Raises(error: string)

  const HTTP_200_OK: int := 200
  const HTTP_201_CREATED: int := 201
  const HTTP_400_BAD_REQUEST: int := 400
  const HTTP_401_UNAUTHORIZED: int := 401
  const HTTP_403_FORBIDDEN: int := 403
  const HTTP_404_NOT_FOUND: int := 404
  const HTTP_500_INTERNAL_SERVER_ERROR: int := 500

  const NotAuthenticatedDetail := Message("Authentication credentials were not provided.")
  const PermissionDeniedDetail := Message("You do not have permission to perform this action.")
  const NotFoundDetail := Message("Not found.")
  const NoSubjectsDetail := Message("No subjects assigned")
  const IdsRequiredDetail := Message("Both subject_id and student_id are required")
  const SubjectNotFoundDetail := Message("Subject not found or not assigned to faculty")
  const StudentNotFoundDetail := Message("Student not found")
  const StudentAddedDetail := "Student added successfully"
  const EditDeniedDetail := Message("You do not have permission to edit this student.")
  const FacultyDoesNotExist := "Faculty matching query does not exist."
  const KeyNotANumber := "Field 'id' expected a number."
  const AnonymousHasNoUserType := "'AnonymousUser' object has no attribute 'user_type'"

  // ---------------------------------------------------------------------------
  // Permission classes
  // ---------------------------------------------------------------------------

  /** IsUserOrReadOnly.has_object_permission for an object whose user link is owner
      (None for an object without a user): reads always pass, writes only for the owner. */
  function IsUserOrReadOnly(m: Method, p: Principal, owner: Option<UserId>): (r: bool)
    ensures IsSafeMethod(m) ==> r
    ensures !IsSafeMethod(m) ==> (r <==> owner.Some? && p.Member? && owner.value == p.id)
  {
    if IsSafeMethod(m) then true
    else if owner.Some? then p.Member? && owner.value == p.id
    else false
  }

  /** A superuser gets no write access to another user's object. */
  lemma NoSuperuserBypass(m: Method, p: Principal, owner: UserId)
    requires p.Member? && p.isSuperuser && owner != p.id && !IsSafeMethod(m)
    ensures !IsUserOrReadOnly(m, p, Some(owner))
  {
  }

  /** IsFacultyUser.has_permission. */
  function IsFacultyUser(p: Principal): (r: bool)
    ensures r <==> p.Member? && p.userType == FacultyUser
  {
    match p
    case Anonymous => false
    case Member(_, _, t) => t == FacultyUser
  }

  /** What a failed permission check answers: 401 to an unauthenticated requester,
      403 to an authenticated one. */
  function PermissionFailure<T>(p: Principal): (r: Response<T>)
    ensures r.Fail?
    ensures r.status == (if p.Anonymous? then HTTP_401_UNAUTHORIZED else HTTP_403_FORBIDDEN)
  {
    if p.Anonymous? then Fail(HTTP_401_UNAUTHORIZED, NotAuthenticatedDetail)
    else Fail(HTTP_403_FORBIDDEN, PermissionDeniedDetail)
  }

  // ---------------------------------------------------------------------------
  // Visibility: get_queryset of each resource
  // ---------------------------------------------------------------------------

  /** FacultyViewSet.get_queryset: a superuser sees every Faculty row, anyone else the
      rows linked to themselves. */
  function FacultyQueryset(db: Store, p: Principal): (r: set<FacultyId>)
    reads db
    requires p.Member?
    ensures r <= db.faculties.Keys
    ensures p.isSuperuser ==> r == db.faculties.Keys
    ensures !p.isSuperuser ==> forall f :: f in r <==> f in db.faculties && db.faculties[f].user == p.id
  {
    if p.isSuperuser then db.faculties.Keys
    else set f | f in db.faculties && db.faculties[f].user == p.id
  }

  /** A requester who is not a superuser sees at most one Faculty row: their own profile. */
  lemma FacultyQuerysetIsOwnProfile(db: Store, p: Principal)
    requires db.Valid() && p.Member? && !p.isSuperuser
    ensures FacultyQueryset(db, p) == if db.FacultyOfUser(p.id).Some? then {db.FacultyOfUser(p.id).value} else {}
    ensures |FacultyQueryset(db, p)| <= 1
  {
  }

  /** The students enrolled in at least one subject the faculty f owns, each once:
      Student.objects.filter(subjects__faculty=f).distinct(). */
  function StudentsOfFaculty(db: Store, f: FacultyId): (r: set<StudentId>)
    reads db
    ensures r <= db.students.Keys
    ensures forall t :: t in r <==> t in db.students && exists j :: j in db.SubjectsTaughtBy(f) && (t, j) in db.enrollment
  {
    set t | t in db.students && exists j :: j in db.subjects && (t, j) in db.enrollment && db.subjects[j].faculty == Some(f)
  }

  /** StudentViewSet.get_queryset: a superuser sees every student; a faculty-type user
      the students of their own Faculty row, whose lookup raises when there is none;
      anyone else the Student row linked to themselves. */
  function StudentQueryset(db: Store, p: Principal): (r: Query<set<StudentId>>)
    reads db
    requires db.ProfilesOneToOne() && p.Member?
    ensures r.Raises? <==> !p.isSuperuser && p.userType == FacultyUser && db.FacultyOfUser(p.id).None?
    ensures r.Rows? ==> r.rows <= db.students.Keys
    ensures p.isSuperuser ==> r == Rows(db.students.Keys)
    ensures !p.isSuperuser && p.userType == FacultyUser && r.Rows? ==>
      forall t :: t in r.rows <==>
        (t in db.students && exists j :: j in db.subjects && (t, j) in db.enrollment && db.subjects[j].faculty == db.FacultyOfUser(p.id))
    ensures !p.isSuperuser && p.userType == StudentUser ==>
      r.Rows? && forall t :: t in r.rows <==> t in db.students && db.students[t].user == p.id
  {
    if p.isSuperuser then Rows(db.students.Keys)
    else if p.userType == FacultyUser then
      match db.FacultyOfUser(p.id)
      case None => Raises(FacultyDoesNotExist)
      case Some(f) => Rows(StudentsOfFaculty(db, f))
    else
      Rows(set t | t in db.students && db.students[t].user == p.id)
  }

  /** A faculty-type user sees exactly the union of the enrolled students of the subjects
      their Faculty row owns. */
  lemma FacultySeesUnionOfEnrollments(db: Store, p: Principal)
    requires db.Valid() && p.Member? && !p.isSuperuser && p.userType == FacultyUser
    requires db.FacultyOfUser(p.id).Some?
    ensures var f := db.FacultyOfUser(p.id).value;
      forall t :: t in StudentQueryset(db, p).rows <==>
        exists j :: j in db.SubjectsTaughtBy(f) && t in db.EnrolledStudents(j)
  {
    var f := db.FacultyOfUser(p.id).value;
    forall t ensures t in StudentQueryset(db, p).rows <==> exists j :: j in db.SubjectsTaughtBy(f) && t in db.EnrolledStudents(j) {
      if t in StudentQueryset(db, p).rows {
        var j :| j in db.subjects && (t, j) in db.enrollment && db.subjects[j].faculty == Some(f);
        assert j in db.SubjectsTaughtBy(f) && t in db.EnrolledStudents(j);
      }
      if exists j :: j in db.SubjectsTaughtBy(f) && t in db.EnrolledStudents(j) {
        var j :| j in db.SubjectsTaughtBy(f) && t in db.EnrolledStudents(j);
        assert t in db.students && j in db.subjects && (t, j) in db.enrollment && db.subjects[j].faculty == Some(f);
      }
    }
  }

  /** A requester who is neither a superuser nor faculty-type sees only their own
      Student row: never another user's. */
  lemma StudentQuerysetIsOwnProfile(db: Store, p: Principal)
    requires db.Valid() && p.Member? && !p.isSuperuser && p.userType == StudentUser
    ensures StudentQueryset(db, p) == Rows(if db.StudentOfUser(p.id).Some? then {db.StudentOfUser(p.id).value} else {})
  {
    var mine := db.StudentOfUser(p.id);
    var rows := StudentQueryset(db, p).rows;
    if mine.Some? {
      forall t | t in rows ensures t == mine.value {
        assert db.students[t].user == db.students[mine.value].user;
      }
      assert rows == {mine.value};
    } else {
      assert rows == {};
    }
  }

  /** SubjectViewSet.get_queryset: a superuser sees every subject; a faculty-type user the
      subjects whose owner's user is themselves; anyone else the subjects a Student row
      of theirs is enrolled in. */
  function SubjectQueryset(db: Store, p: Principal): (r: set<SubjectId>)
    reads db
    requires p.Member?
    ensures r <= db.subjects.Keys
    ensures p.isSuperuser ==> r == db.subjects.Keys
    ensures !p.isSuperuser && p.userType == FacultyUser ==> forall j :: j in r <==>
      j in db.subjects && db.subjects[j].faculty.Some? && db.subjects[j].faculty.value in db.faculties
      && db.faculties[db.subjects[j].faculty.value].user == p.id
    ensures !p.isSuperuser && p.userType == StudentUser ==> forall j :: j in r <==>
      j in db.subjects && exists t :: t in db.students && (t, j) in db.enrollment && db.students[t].user == p.id
  {
    if p.isSuperuser then db.subjects.Keys
    else if p.userType == FacultyUser then
      set j | j in db.subjects && db.subjects[j].faculty.Some? && db.subjects[j].faculty.value in db.faculties
                && db.faculties[db.subjects[j].faculty.value].user == p.id
    else
      set j | j in db.subjects && exists t :: t in db.students && (t, j) in db.enrollment && db.students[t].user == p.id
  }

  /** A faculty-type user sees the subjects their Faculty row owns, and none without one. */
  lemma FacultySeesTaughtSubjects(db: Store, p: Principal)
    requires db.Valid() && p.Member? && !p.isSuperuser && p.userType == FacultyUser
    ensures SubjectQueryset(db, p) ==
      if db.FacultyOfUser(p.id).Some? then db.SubjectsTaughtBy(db.FacultyOfUser(p.id).value) else {}
  {
  }

  /** A student-type user sees exactly the subjects of their own Student row. */
  lemma StudentSeesEnrolledSubjects(db: Store, p: Principal)
    requires db.Valid() && p.Member? && !p.isSuperuser && p.userType == StudentUser
    ensures SubjectQueryset(db, p) ==
      if db.StudentOfUser(p.id).Some? then db.SubjectsOf(db.StudentOfUser(p.id).value) else {}
  {
  }

  // ---------------------------------------------------------------------------
  // FacultyViewSet.my_students
  // ---------------------------------------------------------------------------

  /** GET faculty/{pk}/my_students/: the permission check, then the lookup of the Faculty
      row among the visible ones, then the students of the subjects it owns, or 404 when
      it owns none. */
  function MyStudents(db: Store, p: Principal, pk: FacultyId): (r: Response<set<StudentId>>)
    reads db
    ensures !IsFacultyUser(p) ==> r == PermissionFailure(p)
    ensures IsFacultyUser(p) && pk !in FacultyQueryset(db, p) ==> r == Fail(HTTP_404_NOT_FOUND, NotFoundDetail)
    ensures IsFacultyUser(p) && pk in FacultyQueryset(db, p) && db.SubjectsTaughtBy(pk) == {} ==>
      r == Fail(HTTP_404_NOT_FOUND, NoSubjectsDetail)
    ensures IsFacultyUser(p) && pk in FacultyQueryset(db, p) && db.SubjectsTaughtBy(pk) != {} ==> r.Ok?
    ensures r.Ok? ==> r.status == HTTP_200_OK && db.SubjectsTaughtBy(pk) != {} && pk in db.faculties
    ensures r.Ok? ==> forall t :: t in r.body <==> exists j :: j in db.SubjectsTaughtBy(pk) && t in db.EnrolledStudents(j)
  {
    if !IsFacultyUser(p) then PermissionFailure(p)
    else if pk !in FacultyQueryset(db, p) then Fail(HTTP_404_NOT_FOUND, NotFoundDetail)
    else
      var subjects := db.SubjectsTaughtBy(pk);
      if subjects != {} then
        Ok(HTTP_200_OK, set t | t in db.students && exists j :: j in subjects && (t, j) in db.enrollment)
      else
        Fail(HTTP_404_NOT_FOUND, NoSubjectsDetail)
  }

  /** A faculty user asking for their own students gets exactly the students their
      Student visibility already shows them. */
  lemma MyStudentsMatchesVisibility(db: Store, p: Principal)
    requires db.Valid() && p.Member? && !p.isSuperuser && p.userType == FacultyUser
    requires db.FacultyOfUser(p.id).Some?
    ensures var pk := db.FacultyOfUser(p.id).value;
      MyStudents(db, p, pk) == if db.SubjectsTaughtBy(pk) == {} then Fail(HTTP_404_NOT_FOUND, NoSubjectsDetail)
                               else Ok(HTTP_200_OK, StudentQueryset(db, p).rows)
  {
    var pk := db.FacultyOfUser(p.id).value;
    FacultyQuerysetIsOwnProfile(db, p);
    if db.SubjectsTaughtBy(pk) != {} {
      FacultySeesUnionOfEnrollments(db, p);
      assert MyStudents(db, p, pk).body == StudentQueryset(db, p).rows;
    }
  }

  // ---------------------------------------------------------------------------
  // FacultyViewSet.add_student
  // ---------------------------------------------------------------------------

  /** A value of the request body as the client sent it, when present: a JSON number, or
      a string (a JSON string or a form field). */
  type RequestValue = Option<Json>

  /** Python's truth value of a request value: a missing one, 0 and the empty string are false. */
  predicate Falsy(v: RequestValue) {
    v.None? || v.value == JInt(0) || v.value == JStr("")
  }

  /** A string of decimal digits, at least one. */
  predicate IsDigitText(s: string) {
    |s| > 0 && AllDigits(s)
  }

  /** What int() accepts as a key: an optional sign, then decimal digits. */
  predicate IsIntegerText(s: string) {
    if |s| > 0 && (s[0] == '+' || s[0] == '-') then IsDigitText(s[1..]) else IsDigitText(s)
  }

  function DigitsValue(s: string): nat
    requires AllDigits(s)
  {
    if s == [] then 0 else 10 * DigitsValue(s[..|s| - 1]) + (s[|s| - 1] as int - '0' as int)
  }

  function IntegerValue(s: string): int
    requires IsIntegerText(s)
  {
    if s[0] == '-' then -(DigitsValue(s[1..]) as int)
    else if s[0] == '+' then DigitsValue(s[1..])
    else DigitsValue(s)
  }

  /** The decimal text of n, without sign or leading zeros. */
  function DecimalText(n: nat): (s: string)
    ensures IsDigitText(s) && |s| > 0 && (|s| > 1 ==> s[0] != '0')
  {
    if n < 10 then [('0' as int + n) as char]
    else DecimalText(n / 10) + [('0' as int + n % 10) as char]
  }

  /** Reading the decimal text of n back gives n. */
  lemma {:induction false} DecimalTextValue(n: nat)
    ensures DigitsValue(DecimalText(n)) == n
  {
    var s := DecimalText(n);
    if n >= 10 {
      DecimalTextValue(n / 10);
      assert s[..|s| - 1] == DecimalText(n / 10);
    } else {
      assert s[..|s| - 1] == [];
    }
  }

  /** The key the object manager makes of a lookup value: a number as it is, an integer
      string parsed, and any other string raises ValueError, which no handler catches. */
  function LookupKey(v: Json): (r: Query<int>)
    ensures v.JInt? ==> r == Rows(v.n)
    ensures v.JStr? ==> (r.Rows? <==> IsIntegerText(v.s))
    ensures v.JStr? && r.Rows? ==> r.rows == IntegerValue(v.s)
  {
    match v
    case JInt(n) => Rows(n)
    case JStr(s) => if IsIntegerText(s) then Rows(IntegerValue(s)) else Raises(KeyNotANumber)
  }

  /** The decimal string of a number names the same row as the number. */
  lemma DecimalKeyRoundTrip(n: nat)
    ensures LookupKey(JStr(DecimalText(n))) == LookupKey(JInt(n))
  {
    DecimalTextValue(n);
  }

  /** Subject.objects.get(id=subjectId, faculty=pk) finds a row. */
  predicate SubjectAssigned(db: Store, subjectId: int, pk: FacultyId)
    reads db
  {
    subjectId >= 0 && subjectId in db.subjects && db.subjects[subjectId].faculty == Some(pk)
  }

  predicate StudentExists(db: Store, studentId: int)
    reads db
  {
    studentId >= 0 && studentId in db.students
  }

  /** The answer of POST faculty/{pk}/add_student/ for the request fields subject_id and
      student_id, its checks in their order. A key that is not a number raises inside the
      lookup, and the handlers catch only the missing rows. */
  function AddStudentResponse(db: Store, p: Principal, pk: FacultyId, subjectId: RequestValue, studentId: RequestValue)
    : (r: Response<string>)
    reads db
    ensures !IsFacultyUser(p) ==> r == PermissionFailure(p)
    ensures IsFacultyUser(p) && pk !in FacultyQueryset(db, p) ==> r == Fail(HTTP_404_NOT_FOUND, NotFoundDetail)
    ensures IsFacultyUser(p) && pk in FacultyQueryset(db, p) && (Falsy(subjectId) || Falsy(studentId)) ==>
      r == Fail(HTTP_400_BAD_REQUEST, IdsRequiredDetail)
    ensures IsFacultyUser(p) && pk in FacultyQueryset(db, p) && !Falsy(subjectId) && !Falsy(studentId) ==>
      r == if LookupKey(subjectId.value).Raises? then Fail(HTTP_500_INTERNAL_SERVER_ERROR, Message(KeyNotANumber))
           else if !SubjectAssigned(db, LookupKey(subjectId.value).rows, pk) then Fail(HTTP_404_NOT_FOUND, SubjectNotFoundDetail)
           else if LookupKey(studentId.value).Raises? then Fail(HTTP_500_INTERNAL_SERVER_ERROR, Message(KeyNotANumber))
           else if !StudentExists(db, LookupKey(studentId.value).rows) then Fail(HTTP_404_NOT_FOUND, StudentNotFoundDetail)
           else Ok(HTTP_200_OK, StudentAddedDetail)
    ensures r.Ok? ==> (&& subjectId.Some? && studentId.Some?
                       && LookupKey(subjectId.value).Rows? && LookupKey(studentId.value).Rows?
                       && SubjectAssigned(db, LookupKey(subjectId.value).rows, pk)
                       && StudentExists(db, LookupKey(studentId.value).rows))
  {
    if !IsFacultyUser(p) then PermissionFailure(p)
    else if pk !in FacultyQueryset(db, p) then Fail(HTTP_404_NOT_FOUND, NotFoundDetail)
    else if Falsy(subjectId) || Falsy(studentId) then Fail(HTTP_400_BAD_REQUEST, IdsRequiredDetail)
    else
      match LookupKey(subjectId.value)
      case Raises(e) => Fail(HTTP_500_INTERNAL_SERVER_ERROR, Message(e))
      case Rows(j) =>
        if !SubjectAssigned(db, j, pk) then Fail(HTTP_404_NOT_FOUND, SubjectNotFoundDetail)
        else
          match LookupKey(studentId.value)
          case Raises(e) => Fail(HTTP_500_INTERNAL_SERVER_ERROR, Message(e))
          case Rows(t) =>
            if !StudentExists(db, t) then Fail(HTTP_404_NOT_FOUND, StudentNotFoundDetail)
            else Ok(HTTP_200_OK, StudentAddedDetail)
  }

  /** A positive key sent as its decimal string is answered as the number would be. The
      string "0" is not: it is true, so it reaches the lookup, where 0 is false. */
  lemma DecimalKeyAnswersAsNumber(db: Store, p: Principal, pk: FacultyId, subjectId: nat, studentId: nat)
    requires subjectId > 0 && studentId > 0
    ensures AddStudentResponse(db, p, pk, Some(JStr(DecimalText(subjectId))), Some(JStr(DecimalText(studentId))))
         == AddStudentResponse(db, p, pk, Some(JInt(subjectId)), Some(JInt(studentId)))
    ensures !Falsy(Some(JStr("0"))) && Falsy(Some(JInt(0)))
  {
    DecimalKeyRoundTrip(subjectId);
    DecimalKeyRoundTrip(studentId);
  }

  /** A subject that exists but belongs to another faculty is reported exactly like a
      missing one, and before the student is looked at. */
  lemma SubjectOfOtherFacultyIsNotFound(db: Store, p: Principal, pk: FacultyId, subjectId: int, studentId: RequestValue)
    requires IsFacultyUser(p) && pk in FacultyQueryset(db, p) && !Falsy(studentId)
    requires subjectId > 0 && subjectId in db.subjects && db.subjects[subjectId].faculty != Some(pk)
    ensures AddStudentResponse(db, p, pk, Some(JInt(subjectId)), studentId) == Fail(HTTP_404_NOT_FOUND, SubjectNotFoundDetail)
  {
  }

  /** The answer of add_student does not depend on who is enrolled already, so a repeated
      request answers as the first did. */
  lemma AddStudentIgnoresEnrollment(db1: Store, db2: Store, p: Principal, pk: FacultyId, subjectId: RequestValue, studentId: RequestValue)
    requires db1.users == db2.users && db1.faculties == db2.faculties
    requires db1.subjects == db2.subjects && db1.students == db2.students
    ensures AddStudentResponse(db1, p, pk, subjectId, studentId) == AddStudentResponse(db2, p, pk, subjectId, studentId)
  {
  }

  /** add_student: on success the subject's enrollment set gains the student (a set
      insert, so enrolling an enrolled student changes nothing); otherwise nothing changes. */
  method AddStudent(db: Store, p: Principal, pk: FacultyId, subjectId: RequestValue, studentId: RequestValue)
    returns (r: Response<string>)
    requires db.Valid()
    modifies db`enrollment
    ensures db.Valid()
    ensures r == old(AddStudentResponse(db, p, pk, subjectId, studentId))
    ensures r.Ok? ==> var pair := (LookupKey(studentId.value).rows as StudentId, LookupKey(subjectId.value).rows as SubjectId);
      && db.enrollment == old(db.enrollment) + {pair}
      && (old(pair in db.enrollment) ==> db.enrollment == old(db.enrollment))
    ensures r.Fail? ==> db.enrollment == old(db.enrollment)
  {
    if !IsFacultyUser(p) {
      return PermissionFailure(p);
    }
    if pk !in FacultyQueryset(db, p) {
      return Fail(HTTP_404_NOT_FOUND, NotFoundDetail);
    }
    if Falsy(subjectId) || Falsy(studentId) {
      return Fail(HTTP_400_BAD_REQUEST, IdsRequiredDetail);
    }
    var subjectKey := LookupKey(subjectId.value);
    if subjectKey.Raises? {
      return Fail(HTTP_500_INTERNAL_SERVER_ERROR, Message(subjectKey.error));
    }
    if !SubjectAssigned(db, subjectKey.rows, pk) {
      return Fail(HTTP_404_NOT_FOUND, SubjectNotFoundDetail);
    }
    var studentKey := LookupKey(studentId.value);
    if studentKey.Raises? {
      return Fail(HTTP_500_INTERNAL_SERVER_ERROR, Message(studentKey.error));
    }
    if !StudentExists(db, studentKey.rows) {
      return Fail(HTTP_404_NOT_FOUND, StudentNotFoundDetail);
    }
    db.Enroll(studentKey.rows, subjectKey.rows);
    r := Ok(HTTP_200_OK, StudentAddedDetail);
  }

  // ---------------------------------------------------------------------------
  // StudentViewSet.update_student
  // ---------------------------------------------------------------------------

  /** The checks update_student runs before it writes, as the code stands: the lookup in
      the Student visibility, IsUserOrReadOnly on the object for PATCH, then the action's
      own owner-or-superuser guard. Ok carries the student to update. */
  function UpdateStudentAccess(db: Store, p: Principal, pk: StudentId): (r: Response<StudentId>)
    reads db
    requires db.Valid()
    ensures r.Ok? <==> (p.Member? && StudentQueryset(db, p).Rows? && pk in StudentQueryset(db, p).rows
                        && db.students[pk].user == p.id)
    ensures r.Ok? ==> r == Ok(HTTP_200_OK, pk) && pk in db.students
    ensures p.Anonymous? ==> r == Fail(HTTP_500_INTERNAL_SERVER_ERROR, Message(AnonymousHasNoUserType))
    ensures p.Member? && StudentQueryset(db, p).Raises? ==>
      r == Fail(HTTP_500_INTERNAL_SERVER_ERROR, Message(StudentQueryset(db, p).error))
    ensures p.Member? && StudentQueryset(db, p).Rows? && pk !in StudentQueryset(db, p).rows ==>
      r == Fail(HTTP_404_NOT_FOUND, NotFoundDetail)
    ensures p.Member? && StudentQueryset(db, p).Rows? && pk in StudentQueryset(db, p).rows && db.students[pk].user != p.id ==>
      r == Fail(HTTP_403_FORBIDDEN, PermissionDeniedDetail)
  {
    if p.Anonymous? then Fail(HTTP_500_INTERNAL_SERVER_ERROR, Message(AnonymousHasNoUserType))
    else
      match StudentQueryset(db, p)
      case Raises(e) => Fail(HTTP_500_INTERNAL_SERVER_ERROR, Message(e))
      case Rows(visible) =>
        if pk !in visible then Fail(HTTP_404_NOT_FOUND, NotFoundDetail)
        else
          var owner := db.students[pk].user;
          if !IsUserOrReadOnly(PATCH, p, Some(owner)) then Fail(HTTP_403_FORBIDDEN, PermissionDeniedDetail)
          else EditGuard(p, owner, pk)
  }

  /** As written, the action's own guard never fires: the object permission has already
      refused every non-owner, superusers included. */
  lemma UpdateStudentGuardUnreachable(db: Store, p: Principal, pk: StudentId)
    requires db.Valid()
    ensures UpdateStudentAccess(db, p, pk) != Fail(HTTP_403_FORBIDDEN, EditDeniedDetail)
  {
  }

  /** As written, a superuser cannot update another user's student. */
  lemma SuperuserCannotUpdateStudent(db: Store, p: Principal, pk: StudentId)
    requires db.Valid() && p.Member? && p.isSuperuser
    requires pk in db.students && db.students[pk].user != p.id
    ensures UpdateStudentAccess(db, p, pk) == Fail(HTTP_403_FORBIDDEN, PermissionDeniedDetail)
  {
  }

  /** The rule the action's guard states: writes pass for the object's user and for a
      superuser. */
  function IsUserOrAdminOrReadOnly(m: Method, p: Principal, owner: Option<UserId>): (r: bool)
    ensures r <==> IsUserOrReadOnly(m, p, owner) || (p.Member? && p.isSuperuser && owner.Some?)
  {
    IsUserOrReadOnly(m, p, owner) || (owner.Some? && p.Member? && p.isSuperuser)
  }

  /** The action's own guard: the student's user or a superuser may edit it; anyone else
      is refused with the guard's message. */
  function EditGuard(p: Principal, owner: UserId, pk: StudentId): (r: Response<StudentId>)
    ensures r.Ok? <==> IsUserOrAdminOrReadOnly(PATCH, p, Some(owner))
    ensures r.Ok? ==> r == Ok(HTTP_200_OK, pk)
    ensures r.Fail? ==> r == Fail(HTTP_403_FORBIDDEN, EditDeniedDetail)
  {
    if IsUserOrAdminOrReadOnly(PATCH, p, Some(owner)) then Ok(HTTP_200_OK, pk)
    else Fail(HTTP_403_FORBIDDEN, EditDeniedDetail)
  }

  /** The checks of update_student with the object permission leaving the decision to the
      action's guard, as the guard and its comment intend: the lookup in the Student
      visibility, then owner or superuser, refused with the guard's own message. */
  function UpdateStudentAccessIntended(db: Store, p: Principal, pk: StudentId): (r: Response<StudentId>)
    reads db
    requires db.Valid()
    ensures r.Ok? <==> (p.Member? && StudentQueryset(db, p).Rows? && pk in StudentQueryset(db, p).rows
                        && (db.students[pk].user == p.id || p.isSuperuser))
    ensures r.Ok? ==> r == Ok(HTTP_200_OK, pk) && pk in db.students
    ensures p.Anonymous? ==> r == Fail(HTTP_500_INTERNAL_SERVER_ERROR, Message(AnonymousHasNoUserType))
    ensures p.Member? && StudentQueryset(db, p).Raises? ==>
      r == Fail(HTTP_500_INTERNAL_SERVER_ERROR, Message(StudentQueryset(db, p).error))
    ensures p.Member? && StudentQueryset(db, p).Rows? && pk !in StudentQueryset(db, p).rows ==>
      r == Fail(HTTP_404_NOT_FOUND, NotFoundDetail)
    ensures p.Member? && StudentQueryset(db, p).Rows? && pk in StudentQueryset(db, p).rows
            && db.students[pk].user != p.id && !p.isSuperuser ==>
      r == Fail(HTTP_403_FORBIDDEN, EditDeniedDetail)
  {
    if p.Anonymous? then Fail(HTTP_500_INTERNAL_SERVER_ERROR, Message(AnonymousHasNoUserType))
    else
      match StudentQueryset(db, p)
      case Raises(e) => Fail(HTTP_500_INTERNAL_SERVER_ERROR, Message(e))
      case Rows(visible) =>
        if pk !in visible then Fail(HTTP_404_NOT_FOUND, NotFoundDetail)
        else EditGuard(p, db.students[pk].user, pk)
  }

  /** With the guard deciding, a superuser may update any existing student, a student-type
      user exactly their own, and a faculty-type user who sees another user's student gets
      the guard's refusal. */
  lemma UpdateStudentIntendedAccessRule(db: Store, p: Principal, pk: StudentId)
    requires db.Valid() && p.Member?
    ensures p.isSuperuser ==> (UpdateStudentAccessIntended(db, p, pk).Ok? <==> pk in db.students)
    ensures !p.isSuperuser && p.userType == StudentUser ==>
      (UpdateStudentAccessIntended(db, p, pk).Ok? <==> pk in db.students && db.students[pk].user == p.id)
    ensures !p.isSuperuser && p.userType == FacultyUser && StudentQueryset(db, p).Rows?
            && pk in StudentQueryset(db, p).rows && db.students[pk].user != p.id ==>
      UpdateStudentAccessIntended(db, p, pk) == Fail(HTTP_403_FORBIDDEN, EditDeniedDetail)
  {
  }

  /** What update_student does once its access checks have answered: a refusal is
      returned as it is, an invalid payload (None) answers 400, and otherwise the
      serializer's partial update runs and the answer is 200. */
  method RespondToStudentUpdate(db: Store, pk: StudentId, access: Response<StudentId>, validated: Option<StudentUpdateData>)
    returns (r: Response<StudentId>)
    requires db.Valid()
    requires access.Ok? ==> access == Ok(HTTP_200_OK, pk) && pk in db.students
    requires validated.Some? && pk in db.students ==>
      && StudentDataAcceptable(validated.value.fields)
      && (validated.value.user.Some? ==> UserDataAcceptable(db, db.students[pk].user, validated.value.user.value))
    modifies db
    ensures db.Valid()
    ensures r == if access.Fail? then access
                 else if validated.None? then Fail(HTTP_400_BAD_REQUEST, FieldErrors)
                 else Ok(HTTP_200_OK, pk)
    ensures r.Ok? ==> db.students == old(db.students)[pk := PatchedStudent(old(db.students[pk]), validated.value.fields)]
    ensures r.Ok? ==> var uid := old(db.students[pk].user);
      db.users == if validated.value.user.Some?
                  then old(db.users)[uid := UpdatedUser(old(db.users[uid]), validated.value.user.value, HashIfNonEmpty)]
                  else old(db.users)
    ensures r.Fail? ==> db.users == old(db.users) && db.students == old(db.students)
    ensures db.faculties == old(db.faculties) && db.subjects == old(db.subjects) && db.enrollment == old(db.enrollment)
  {
    if access.Fail? {
      return access;
    }
    if validated.None? {
      return Fail(HTTP_400_BAD_REQUEST, FieldErrors);
    }
    Serializers.UpdateStudent(db, pk, validated.value);
    r := Ok(HTTP_200_OK, pk);
  }

  /** PATCH students/{pk}/update_student/ as the code stands, with the payload as
      validation left it (None when validation failed). Only the student's own user gets
      past the object permission, so a superuser editing another user's student is
      refused and nothing is written. */
  method UpdateStudentAction(db: Store, p: Principal, pk: StudentId, validated: Option<StudentUpdateData>)
    returns (r: Response<StudentId>)
    requires db.Valid()
    requires validated.Some? && pk in db.students ==>
      && StudentDataAcceptable(validated.value.fields)
      && (validated.value.user.Some? ==> UserDataAcceptable(db, db.students[pk].user, validated.value.user.value))
    modifies db
    ensures db.Valid()
    ensures var access := old(UpdateStudentAccess(db, p, pk));
      r == if access.Fail? then access
           else if validated.None? then Fail(HTTP_400_BAD_REQUEST, FieldErrors)
           else Ok(HTTP_200_OK, pk)
    ensures r.Ok? ==> old(db.students[pk].user) == p.id
    ensures r.Ok? ==> db.students == old(db.students)[pk := PatchedStudent(old(db.students[pk]), validated.value.fields)]
    ensures r.Ok? ==> var uid := old(db.students[pk].user);
      db.users == if validated.value.user.Some?
                  then old(db.users)[uid := UpdatedUser(old(db.users[uid]), validated.value.user.value, HashIfNonEmpty)]
                  else old(db.users)
    ensures r.Fail? ==> db.users == old(db.users) && db.students == old(db.students)
    ensures db.faculties == old(db.faculties) && db.subjects == old(db.subjects) && db.enrollment == old(db.enrollment)
  {
    var access := UpdateStudentAccess(db, p, pk);
    r := RespondToStudentUpdate(db, pk, access, validated);
  }

  /** The same action with the guard deciding, as intended: a superuser's update of any
      visible student is written too. */
  method UpdateStudentActionIntended(db: Store, p: Principal, pk: StudentId, validated: Option<StudentUpdateData>)
    returns (r: Response<StudentId>)
    requires db.Valid()
    requires validated.Some? && pk in db.students ==>
      && StudentDataAcceptable(validated.value.fields)
      && (validated.value.user.Some? ==> UserDataAcceptable(db, db.students[pk].user, validated.value.user.value))
    modifies db
    ensures db.Valid()
    ensures var access := old(UpdateStudentAccessIntended(db, p, pk));
      r == if access.Fail? then access
           else if validated.None? then Fail(HTTP_400_BAD_REQUEST, FieldErrors)
           else Ok(HTTP_200_OK, pk)
    ensures r.Ok? ==> old(db.students[pk].user) == p.id || p.isSuperuser
    ensures r.Ok? ==> db.students == old(db.students)[pk := PatchedStudent(old(db.students[pk]), validated.value.fields)]
    ensures r.Ok? ==> var uid := old(db.students[pk].user);
      db.users == if validated.value.user.Some?
                  then old(db.users)[uid := UpdatedUser(old(db.users[uid]), validated.value.user.value, HashIfNonEmpty)]
                  else old(db.users)
    ensures r.Fail? ==> db.users == old(db.users) && db.students == old(db.students)
    ensures db.faculties == old(db.faculties) && db.subjects == old(db.subjects) && db.enrollment == old(db.enrollment)
  {
    var access := UpdateStudentAccessIntended(db, p, pk);
    r := RespondToStudentUpdate(db, pk, access, validated);
  }

  // ---------------------------------------------------------------------------
  // StudentViewSet.my_subjects
  // ---------------------------------------------------------------------------

  /** GET students/{pk}/my_subjects/: authentication, the lookup among the visible
      students, then the subjects the student is enrolled in (possibly none). */
  function MySubjects(db: Store, p: Principal, pk: StudentId): (r: Response<set<SubjectId>>)
    reads db
    requires db.Valid()
    ensures p.Anonymous? ==> r == Fail(HTTP_401_UNAUTHORIZED, NotAuthenticatedDetail)
    ensures r.Ok? <==> p.Member? && StudentQueryset(db, p).Rows? && pk in StudentQueryset(db, p).rows
    ensures r.Ok? ==> r.status == HTTP_200_OK && forall j :: j in r.body <==> (pk, j) in db.enrollment
    ensures p.Member? && StudentQueryset(db, p).Raises? ==>
      r == Fail(HTTP_500_INTERNAL_SERVER_ERROR, Message(StudentQueryset(db, p).error))
    ensures p.Member? && StudentQueryset(db, p).Rows? && pk !in StudentQueryset(db, p).rows ==>
      r == Fail(HTTP_404_NOT_FOUND, NotFoundDetail)
  {
    if p.Anonymous? then Fail(HTTP_401_UNAUTHORIZED, NotAuthenticatedDetail)
    else
      match StudentQueryset(db, p)
      case Raises(e) => Fail(HTTP_500_INTERNAL_SERVER_ERROR, Message(e))
      case Rows(visible) =>
        if pk !in visible then Fail(HTTP_404_NOT_FOUND, NotFoundDetail)
        else Ok(HTTP_200_OK, db.SubjectsOf(pk))
  }

  /** A student asking for their own subjects gets exactly the subjects their Subject
      visibility shows them. */
  lemma MySubjectsMatchesVisibility(db: Store, p: Principal)
    requires db.Valid() && p.Member? && !p.isSuperuser && p.userType == StudentUser
    requires db.StudentOfUser(p.id).Some?
    ensures MySubjects(db, p, db.StudentOfUser(p.id).value) == Ok(HTTP_200_OK, SubjectQueryset(db, p))
  {
    StudentQuerysetIsOwnProfile(db, p);
    StudentSeesEnrolledSubjects(db, p);
  }

  // ---------------------------------------------------------------------------
  // SubjectViewSet.perform_create
  // ---------------------------------------------------------------------------

  /** The owner a new subject gets: a faculty-type creator's own Faculty row, whatever the
      payload says (or the raised lookup when there is none); otherwise the payload's. */
  function SubjectOwner(db: Store, p: Principal, data: SubjectData): (r: Query<Option<FacultyId>>)
    reads db
    requires db.ProfilesOneToOne() && p.Member?
    ensures p.userType != FacultyUser ==> r == Rows(data.faculty)
    ensures p.userType == FacultyUser && r.Rows? ==>
      r.rows.Some? && r.rows.value in db.faculties && db.faculties[r.rows.value].user == p.id
    ensures p.userType == FacultyUser ==> (r.Raises? <==> db.FacultyOfUser(p.id).None?)
  {
    if p.userType == FacultyUser then
      match db.FacultyOfUser(p.id)
      case None => Raises(FacultyDoesNotExist)
      case Some(f) => Rows(Some(f))
    else Rows(data.faculty)
  }

  /** POST subjects/ once the payload is valid (code unused, owner null or existing). */
  method PerformCreate(db: Store, p: Principal, data: SubjectData) returns (r: Response<SubjectId>)
    requires db.Valid() && p.Member?
    requires ValidSubject(Subject(data.name, data.code, data.description, data.faculty)) && !db.CodeTaken(data.code)
    requires data.faculty.Some? ==> data.faculty.value in db.faculties
    modifies db
    ensures db.Valid()
    ensures var owner := old(SubjectOwner(db, p, data));
      && (owner.Raises? ==> r == Fail(HTTP_500_INTERNAL_SERVER_ERROR, Message(owner.error)) && db.subjects == old(db.subjects))
      && (owner.Rows? ==> (r.Ok? && r.status == HTTP_201_CREATED && r.body !in old(db.subjects)
                           && db.subjects == old(db.subjects)[r.body := Subject(data.name, data.code, data.description, owner.rows)]))
    ensures db.users == old(db.users) && db.faculties == old(db.faculties) && db.students == old(db.students)
    ensures db.enrollment == old(db.enrollment)
  {
    var owner := SubjectOwner(db, p, data);
    if owner.Raises? {
      return Fail(HTTP_500_INTERNAL_SERVER_ERROR, Message(owner.error));
    }
    var id := db.InsertSubject(Subject(data.name, data.code, data.description, owner.rows));
    r := Ok(HTTP_201_CREATED, id);
  }
}
