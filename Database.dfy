/** The relational store behind the records: one table per record kind, the join table
    of the Student.subjects / Subject.enrolled_students relation, the constraints the
    schema declares (one-to-one profile links, unique usernames and subject codes,
    foreign keys that resolve) and the on-delete rules (CASCADE and SET_NULL). */
module Database {
  import opened Models

  /** Subject.faculty after its owner f is deleted: every subject f owned keeps all of its
      columns except the owner, which becomes null; no subject is removed. */
  function WithoutOwner(subjects: map<SubjectId, Subject>, f: FacultyId): (r: map<SubjectId, Subject>)
    ensures r.Keys == subjects.Keys
    ensures forall j :: j in r ==> r[j].faculty != Some(f)
    ensures forall j :: j in r ==> r[j].faculty == if subjects[j].faculty == Some(f) then None else subjects[j].faculty
    ensures forall j :: j in r && subjects[j].faculty != Some(f) ==> r[j] == subjects[j]
    ensures forall j :: j in r ==> r[j].(faculty := None) == subjects[j].(faculty := None)
  {
    map j | j in subjects :: if subjects[j].faculty == Some(f) then subjects[j].(faculty := None) else subjects[j]
  }

  /** The join table after the student t is deleted: t's rows go, every other row stays. */
  function WithoutStudent(enrollment: set<(StudentId, SubjectId)>, t: StudentId): (r: set<(StudentId, SubjectId)>)
    ensures r <= enrollment
    ensures forall e :: e in enrollment ==> (e in r <==> e.0 != t)
  {
    set e | e in enrollment && e.0 != t
  }

  /** The join table after the subject j is deleted. */
  function WithoutSubject(enrollment: set<(StudentId, SubjectId)>, j: SubjectId): (r: set<(StudentId, SubjectId)>)
    ensures r <= enrollment
    ensures forall e :: e in enrollment ==> (e in r <==> e.1 != j)
  {
    set e | e in enrollment && e.1 != j
  }

  // ---------------------------------------------------------------------------
  // The schema's constraints, stated on the tables as values
  // ---------------------------------------------------------------------------

  /** Every key of the table was handed out by its auto-increment sequence. */
  ghost predicate KeysBelow<V>(table: map<nat, V>, next: nat) {
    forall k :: k in table ==> k < next
  }

  ghost predicate ProfilesLinked(users: map<UserId, User>, faculties: map<FacultyId, Faculty>,
                                 students: map<StudentId, Student>) {
    && (forall f :: f in faculties ==> faculties[f].user in users)
    && (forall f, g :: f in faculties && g in faculties && faculties[f].user == faculties[g].user ==> f == g)
    && (forall t :: t in students ==> students[t].user in users)
    && (forall t, r :: t in students && r in students && students[t].user == students[r].user ==> t == r)
  }

  ghost predicate ReferencesExist(faculties: map<FacultyId, Faculty>, subjects: map<SubjectId, Subject>,
                                  students: map<StudentId, Student>, enrollment: set<(StudentId, SubjectId)>) {
    && (forall j :: j in subjects && subjects[j].faculty.Some? ==> subjects[j].faculty.value in faculties)
    && (forall e :: e in enrollment ==> e.0 in students && e.1 in subjects)
  }

  ghost predicate UniqueUsernames(users: map<UserId, User>) {
    forall u, v :: u in users && v in users && users[u].username == users[v].username ==> u == v
  }

  ghost predicate UniqueCodes(subjects: map<SubjectId, Subject>) {
    forall j, k :: j in subjects && k in subjects && subjects[j].code == subjects[k].code ==> j == k
  }

  ghost predicate AllRowsValid(users: map<UserId, User>, faculties: map<FacultyId, Faculty>,
                               subjects: map<SubjectId, Subject>) {
    && (forall u :: u in users ==> ValidUser(users[u]))
    && (forall f :: f in faculties ==> ValidFaculty(faculties[f]))
    && (forall j :: j in subjects ==> ValidSubject(subjects[j]))
  }

  // ---------------------------------------------------------------------------
  // Each kind of write keeps the constraints
  // ---------------------------------------------------------------------------

  /** Writing a valid user row whose username no other user has. */
  lemma PutUserKeeps(users: map<UserId, User>, faculties: map<FacultyId, Faculty>, students: map<StudentId, Student>,
                     subjects: map<SubjectId, Subject>, id: UserId, u: User)
    requires ProfilesLinked(users, faculties, students) && UniqueUsernames(users)
    requires AllRowsValid(users, faculties, subjects) && ValidUser(u)
    requires forall v :: v in users && v != id ==> users[v].username != u.username
    ensures ProfilesLinked(users[id := u], faculties, students) && UniqueUsernames(users[id := u])
    ensures AllRowsValid(users[id := u], faculties, subjects)
  {
  }

  /** Writing a valid Faculty row linked to an existing user no other Faculty row has. */
  lemma PutFacultyKeeps(users: map<UserId, User>, faculties: map<FacultyId, Faculty>, students: map<StudentId, Student>,
                        subjects: map<SubjectId, Subject>, enrollment: set<(StudentId, SubjectId)>,
                        id: FacultyId, row: Faculty)
    requires ProfilesLinked(users, faculties, students) && ReferencesExist(faculties, subjects, students, enrollment)
    requires AllRowsValid(users, faculties, subjects) && ValidFaculty(row) && row.user in users
    requires forall g :: g in faculties && g != id ==> faculties[g].user != row.user
    ensures ProfilesLinked(users, faculties[id := row], students)
    ensures ReferencesExist(faculties[id := row], subjects, students, enrollment)
    ensures AllRowsValid(users, faculties[id := row], subjects)
  {
  }

  /** Writing a Student row linked to an existing user no other Student row has. */
  lemma PutStudentKeeps(users: map<UserId, User>, faculties: map<FacultyId, Faculty>, students: map<StudentId, Student>,
                        subjects: map<SubjectId, Subject>, enrollment: set<(StudentId, SubjectId)>,
                        id: StudentId, row: Student)
    requires ProfilesLinked(users, faculties, students) && ReferencesExist(faculties, subjects, students, enrollment)
    requires row.user in users
    requires forall r :: r in students && r != id ==> students[r].user != row.user
    ensures ProfilesLinked(users, faculties, students[id := row])
    ensures ReferencesExist(faculties, subjects, students[id := row], enrollment)
  {
  }

  /** Adding a valid subject with an unused code and a null or existing owner. */
  lemma AddSubjectKeeps(users: map<UserId, User>, faculties: map<FacultyId, Faculty>, subjects: map<SubjectId, Subject>,
                        students: map<StudentId, Student>, enrollment: set<(StudentId, SubjectId)>,
                        id: SubjectId, row: Subject)
    requires ReferencesExist(faculties, subjects, students, enrollment) && UniqueCodes(subjects)
    requires AllRowsValid(users, faculties, subjects) && ValidSubject(row)
    requires id !in subjects && (row.faculty.Some? ==> row.faculty.value in faculties)
    requires forall k :: k in subjects ==> subjects[k].code != row.code
    ensures ReferencesExist(faculties, subjects[id := row], students, enrollment)
    ensures UniqueCodes(subjects[id := row]) && AllRowsValid(users, faculties, subjects[id := row])
  {
  }

  /** Adding a join row between an existing student and an existing subject. */
  lemma AddEnrollmentKeeps(faculties: map<FacultyId, Faculty>, subjects: map<SubjectId, Subject>,
                           students: map<StudentId, Student>, enrollment: set<(StudentId, SubjectId)>,
                           t: StudentId, j: SubjectId)
    requires ReferencesExist(faculties, subjects, students, enrollment) && t in students && j in subjects
    ensures ReferencesExist(faculties, subjects, students, enrollment + {(t, j)})
  {
  }

  lemma RemoveSubjectKeeps(users: map<UserId, User>, faculties: map<FacultyId, Faculty>, subjects: map<SubjectId, Subject>,
                           students: map<StudentId, Student>, enrollment: set<(StudentId, SubjectId)>, j: SubjectId)
    requires ReferencesExist(faculties, subjects, students, enrollment) && UniqueCodes(subjects)
    requires AllRowsValid(users, faculties, subjects)
    ensures ReferencesExist(faculties, subjects - {j}, students, WithoutSubject(enrollment, j))
    ensures UniqueCodes(subjects - {j}) && AllRowsValid(users, faculties, subjects - {j})
  {
  }

  lemma RemoveStudentKeeps(users: map<UserId, User>, faculties: map<FacultyId, Faculty>, subjects: map<SubjectId, Subject>,
                           students: map<StudentId, Student>, enrollment: set<(StudentId, SubjectId)>, t: StudentId)
    requires ProfilesLinked(users, faculties, students) && ReferencesExist(faculties, subjects, students, enrollment)
    ensures ProfilesLinked(users, faculties, students - {t})
    ensures ReferencesExist(faculties, subjects, students - {t}, WithoutStudent(enrollment, t))
  {
  }

  lemma RemoveFacultyKeeps(users: map<UserId, User>, faculties: map<FacultyId, Faculty>, subjects: map<SubjectId, Subject>,
                           students: map<StudentId, Student>, enrollment: set<(StudentId, SubjectId)>, f: FacultyId)
    requires ProfilesLinked(users, faculties, students) && ReferencesExist(faculties, subjects, students, enrollment)
    requires UniqueCodes(subjects) && AllRowsValid(users, faculties, subjects)
    ensures ProfilesLinked(users, faculties - {f}, students)
    ensures ReferencesExist(faculties - {f}, WithoutOwner(subjects, f), students, enrollment)
    ensures UniqueCodes(WithoutOwner(subjects, f)) && AllRowsValid(users, faculties - {f}, WithoutOwner(subjects, f))
  {
    // Resetting the owner keeps each subject's code and name.
    var after := WithoutOwner(subjects, f);
    forall j | j in after ensures after[j].code == subjects[j].code && after[j].name == subjects[j].name {
      assert after[j].(faculty := None) == subjects[j].(faculty := None);
    }
  }

  /** Removing a user that no profile refers to. */
  lemma RemoveUserKeeps(users: map<UserId, User>, faculties: map<FacultyId, Faculty>, students: map<StudentId, Student>,
                        subjects: map<SubjectId, Subject>, u: UserId)
    requires ProfilesLinked(users, faculties, students) && UniqueUsernames(users)
    requires AllRowsValid(users, faculties, subjects)
    requires forall f :: f in faculties ==> faculties[f].user != u
    requires forall t :: t in students ==> students[t].user != u
    ensures ProfilesLinked(users - {u}, faculties, students) && UniqueUsernames(users - {u})
    ensures AllRowsValid(users - {u}, faculties, subjects)
  {
  }

  class Store {
    var users: map<UserId, User>
    var faculties: map<FacultyId, Faculty>
    var subjects: map<SubjectId, Subject>
    var students: map<StudentId, Student>
    /** One row (student, subject) per enrollment. Student.subjects and
        Subject.enrolled_students are two views of this one relation. */
    var enrollment: set<(StudentId, SubjectId)>
    /** The next key each table's auto-increment sequence hands out. */
    var nextUserId: nat
    var nextFacultyId: nat
    var nextSubjectId: nat
    var nextStudentId: nat

    ghost predicate KeysIssued()
      reads this
    {
      && KeysBelow(users, nextUserId) && KeysBelow(faculties, nextFacultyId)
      && KeysBelow(subjects, nextSubjectId) && KeysBelow(students, nextStudentId)
    }

    /** Faculty.user and Student.user are one-to-one links to existing users:
        a user has at most one Faculty row and at most one Student row. */
    ghost predicate ProfilesOneToOne()
      reads this
    {
      ProfilesLinked(users, faculties, students)
    }

    /** Subject.faculty is null or names a Faculty row; join rows name existing rows. */
    ghost predicate ReferencesResolve()
      reads this
    {
      ReferencesExist(faculties, subjects, students, enrollment)
    }

    ghost predicate UsernamesUnique()
      reads this
    {
      UniqueUsernames(users)
    }

    ghost predicate CodesUnique()
      reads this
    {
      UniqueCodes(subjects)
    }

    ghost predicate RowsValid()
      reads this
    {
      AllRowsValid(users, faculties, subjects)
    }

    ghost predicate Valid()
      reads this
    {
      KeysIssued() && ProfilesOneToOne() && ReferencesResolve() && UsernamesUnique() && CodesUnique() && RowsValid()
    }

    constructor ()
      ensures Valid()
      ensures users == map[] && faculties == map[] && subjects == map[] && students == map[]
      ensures enrollment == {}
    {
      users, faculties, subjects, students := map[], map[], map[], map[];
      enrollment := {};
      nextUserId, nextFacultyId, nextSubjectId, nextStudentId := 1, 1, 1, 1;
    }

    // -------------------------------------------------------------------------
    // Queries
    // -------------------------------------------------------------------------

    predicate UsernameTaken(name: string)
      reads this
    {
      exists u :: u in users && users[u].username == name
    }

    predicate CodeTaken(code: string)
      reads this
    {
      exists j :: j in subjects && subjects[j].code == code
    }

    /** Faculty.objects.get(user=u): the one Faculty row of u, or None where the lookup
        raises DoesNotExist. */
    function FacultyOfUser(u: UserId): (r: Option<FacultyId>)
      reads this
      requires ProfilesOneToOne()
      ensures r.Some? ==> r.value in faculties && faculties[r.value].user == u
      ensures r.None? ==> forall f :: f in faculties ==> faculties[f].user != u
    {
      if exists f :: f in faculties && faculties[f].user == u then
        var f :| f in faculties && faculties[f].user == u; Some(f)
      else
        None
    }

    /** Student.objects.get(user=u), as above. */
    function StudentOfUser(u: UserId): (r: Option<StudentId>)
      reads this
      requires ProfilesOneToOne()
      ensures r.Some? ==> r.value in students && students[r.value].user == u
      ensures r.None? ==> forall t :: t in students ==> students[t].user != u
    {
      if exists t :: t in students && students[t].user == u then
        var t :| t in students && students[t].user == u; Some(t)
      else
        None
    }

    /** faculty.subjects_taught, that is Subject.objects.filter(faculty=f). */
    function SubjectsTaughtBy(f: FacultyId): (r: set<SubjectId>)
      reads this
      ensures r <= subjects.Keys
      ensures forall j :: j in r <==> j in subjects && subjects[j].faculty == Some(f)
    {
      set j | j in subjects && subjects[j].faculty == Some(f)
    }

    /** subject.enrolled_students */
    function EnrolledStudents(j: SubjectId): (r: set<StudentId>)
      reads this
      ensures r <= students.Keys
      ensures forall t :: t in r <==> t in students && (t, j) in enrollment
    {
      set t | t in students && (t, j) in enrollment
    }

    /** student.subjects */
    function SubjectsOf(t: StudentId): (r: set<SubjectId>)
      reads this
      ensures r <= subjects.Keys
      ensures forall j :: j in r <==> j in subjects && (t, j) in enrollment
    {
      set j | j in subjects && (t, j) in enrollment
    }

    // -------------------------------------------------------------------------
    // Row writes: objects.create, save() and the many-to-many add
    // -------------------------------------------------------------------------

    method InsertUser(u: User) returns (id: UserId)
      requires Valid()
      requires ValidUser(u) && !UsernameTaken(u.username)
      modifies this
      ensures Valid()
      ensures id !in old(users) && id == old(nextUserId)
      ensures users == old(users)[id := u]
      ensures faculties == old(faculties) && subjects == old(subjects) && students == old(students)
      ensures enrollment == old(enrollment)
      ensures nextFacultyId == old(nextFacultyId) && nextStudentId == old(nextStudentId)
      ensures nextSubjectId == old(nextSubjectId)
    {
      id := nextUserId;
      PutUserKeeps(users, faculties, students, subjects, id, u);
      users := users[id := u];
      nextUserId := nextUserId + 1;
    }

    /** user.save() of a changed row; the new username must not belong to another user. */
    method SaveUser(id: UserId, u: User)
      requires Valid() && id in users
      requires ValidUser(u)
      requires forall v :: v in users && v != id ==> users[v].username != u.username
      modifies this
      ensures Valid()
      ensures users == old(users)[id := u]
      ensures faculties == old(faculties) && subjects == old(subjects) && students == old(students)
      ensures enrollment == old(enrollment)
      ensures nextUserId == old(nextUserId) && nextFacultyId == old(nextFacultyId)
      ensures nextStudentId == old(nextStudentId) && nextSubjectId == old(nextSubjectId)
    {
      PutUserKeeps(users, faculties, students, subjects, id, u);
      users := users[id := u];
    }

    method InsertFaculty(row: Faculty) returns (id: FacultyId)
      requires Valid()
      requires row.user in users && FacultyOfUser(row.user).None? && ValidFaculty(row)
      modifies this
      ensures Valid()
      ensures id !in old(faculties) && id == old(nextFacultyId)
      ensures faculties == old(faculties)[id := row]
      ensures users == old(users) && subjects == old(subjects) && students == old(students)
      ensures enrollment == old(enrollment)
      ensures nextUserId == old(nextUserId) && nextStudentId == old(nextStudentId)
      ensures nextSubjectId == old(nextSubjectId)
    {
      id := nextFacultyId;
      PutFacultyKeeps(users, faculties, students, subjects, enrollment, id, row);
      faculties := faculties[id := row];
      nextFacultyId := nextFacultyId + 1;
    }

    /** faculty.save() of a changed row whose user link is kept. */
    method SaveFaculty(id: FacultyId, row: Faculty)
      requires Valid() && id in faculties
      requires row.user == faculties[id].user && ValidFaculty(row)
      modifies this
      ensures Valid()
      ensures faculties == old(faculties)[id := row]
      ensures users == old(users) && subjects == old(subjects) && students == old(students)
      ensures enrollment == old(enrollment)
      ensures nextUserId == old(nextUserId) && nextFacultyId == old(nextFacultyId)
      ensures nextStudentId == old(nextStudentId) && nextSubjectId == old(nextSubjectId)
    {
      PutFacultyKeeps(users, faculties, students, subjects, enrollment, id, row);
      faculties := faculties[id := row];
    }

    method InsertStudent(row: Student) returns (id: StudentId)
      requires Valid()
      requires row.user in users && StudentOfUser(row.user).None?
      modifies this
      ensures Valid()
      ensures id !in old(students) && id == old(nextStudentId)
      ensures students == old(students)[id := row]
      ensures users == old(users) && faculties == old(faculties) && subjects == old(subjects)
      ensures enrollment == old(enrollment)
      ensures nextUserId == old(nextUserId) && nextFacultyId == old(nextFacultyId)
      ensures nextSubjectId == old(nextSubjectId)
    {
      id := nextStudentId;
      PutStudentKeeps(users, faculties, students, subjects, enrollment, id, row);
      students := students[id := row];
      nextStudentId := nextStudentId + 1;
    }

    /** student.save() of a changed row whose user link is kept. */
    method SaveStudent(id: StudentId, row: Student)
      requires Valid() && id in students
      requires row.user == students[id].user
      modifies this
      ensures Valid()
      ensures students == old(students)[id := row]
      ensures users == old(users) && faculties == old(faculties) && subjects == old(subjects)
      ensures enrollment == old(enrollment)
      ensures nextUserId == old(nextUserId) && nextFacultyId == old(nextFacultyId)
      ensures nextStudentId == old(nextStudentId) && nextSubjectId == old(nextSubjectId)
    {
      PutStudentKeeps(users, faculties, students, subjects, enrollment, id, row);
      students := students[id := row];
    }

    /** Subject.objects.create: the code must be unused and the owner null or existing. */
    method InsertSubject(row: Subject) returns (id: SubjectId)
      requires Valid()
      requires ValidSubject(row) && !CodeTaken(row.code)
      requires row.faculty.Some? ==> row.faculty.value in faculties
      modifies this
      ensures Valid()
      ensures id !in old(subjects) && id == old(nextSubjectId)
      ensures subjects == old(subjects)[id := row]
      ensures users == old(users) && faculties == old(faculties) && students == old(students)
      ensures enrollment == old(enrollment)
      ensures nextUserId == old(nextUserId) && nextFacultyId == old(nextFacultyId)
      ensures nextStudentId == old(nextStudentId)
    {
      id := nextSubjectId;
      AddSubjectKeeps(users, faculties, subjects, students, enrollment, id, row);
      subjects := subjects[id := row];
      nextSubjectId := nextSubjectId + 1;
    }

    /** subject.enrolled_students.add(student): a set insert into the join table. */
    method Enroll(t: StudentId, j: SubjectId)
      requires Valid() && t in students && j in subjects
      modifies this`enrollment
      ensures Valid()
      ensures enrollment == old(enrollment) + {(t, j)}
    {
      AddEnrollmentKeeps(faculties, subjects, students, enrollment, t, j);
      enrollment := enrollment + {(t, j)};
    }

    // -------------------------------------------------------------------------
    // Deletes and their on-delete rules
    // -------------------------------------------------------------------------

    /** Deleting a subject removes its join rows. */
    method DeleteSubject(j: SubjectId)
      requires Valid() && j in subjects
      modifies this
      ensures Valid()
      ensures nextUserId == old(nextUserId) && nextFacultyId == old(nextFacultyId)
      ensures nextSubjectId == old(nextSubjectId) && nextStudentId == old(nextStudentId)
      ensures subjects == old(subjects) - {j}
      ensures enrollment == WithoutSubject(old(enrollment), j)
      ensures users == old(users) && faculties == old(faculties) && students == old(students)
    {
      RemoveSubjectKeeps(users, faculties, subjects, students, enrollment, j);
      subjects := subjects - {j};
      enrollment := WithoutSubject(enrollment, j);
    }

    /** Deleting a student removes its join rows; the subjects stay. */
    method DeleteStudent(t: StudentId)
      requires Valid() && t in students
      modifies this
      ensures Valid()
      ensures nextUserId == old(nextUserId) && nextFacultyId == old(nextFacultyId)
      ensures nextSubjectId == old(nextSubjectId) && nextStudentId == old(nextStudentId)
      ensures students == old(students) - {t}
      ensures enrollment == WithoutStudent(old(enrollment), t)
      ensures users == old(users) && faculties == old(faculties) && subjects == old(subjects)
    {
      RemoveStudentKeeps(users, faculties, subjects, students, enrollment, t);
      students := students - {t};
      enrollment := WithoutStudent(enrollment, t);
    }

    /** Subject.faculty is SET_NULL: deleting a faculty keeps every subject it owned,
        now without an owner. */
    method DeleteFaculty(f: FacultyId)
      requires Valid() && f in faculties
      modifies this
      ensures Valid()
      ensures nextUserId == old(nextUserId) && nextFacultyId == old(nextFacultyId)
      ensures nextSubjectId == old(nextSubjectId) && nextStudentId == old(nextStudentId)
      ensures faculties == old(faculties) - {f}
      ensures subjects == WithoutOwner(old(subjects), f)
      ensures users == old(users) && students == old(students) && enrollment == old(enrollment)
    {
      RemoveFacultyKeeps(users, faculties, subjects, students, enrollment, f);
      faculties := faculties - {f};
      subjects := WithoutOwner(subjects, f);
    }

    /** Faculty.user and Student.user are CASCADE: deleting a user deletes its Faculty
        row (with the SET_NULL of that faculty's subjects) and its Student row (with its
        join rows). */
    method DeleteUser(u: UserId)
      requires Valid() && u in users
      modifies this
      ensures Valid()
      ensures nextUserId == old(nextUserId) && nextFacultyId == old(nextFacultyId)
      ensures nextSubjectId == old(nextSubjectId) && nextStudentId == old(nextStudentId)
      ensures users == old(users) - {u}
      ensures old(FacultyOfUser(u)).None? ==> faculties == old(faculties) && subjects == old(subjects)
      ensures old(FacultyOfUser(u)).Some? ==>
        var f := old(FacultyOfUser(u)).value;
        faculties == old(faculties) - {f} && subjects == WithoutOwner(old(subjects), f)
      ensures old(StudentOfUser(u)).None? ==> students == old(students) && enrollment == old(enrollment)
      ensures old(StudentOfUser(u)).Some? ==>
        var t := old(StudentOfUser(u)).value;
        students == old(students) - {t} && enrollment == WithoutStudent(old(enrollment), t)
      ensures forall f :: f in faculties ==> faculties[f].user != u
      ensures forall t :: t in students ==> students[t].user != u
    {
      var faculty := FacultyOfUser(u);
      var student := StudentOfUser(u);
      if faculty.Some? {
        DeleteFaculty(faculty.value);
        forall f | f in faculties ensures faculties[f].user != u {
          assert f in old(faculties) && f != faculty.value;
        }
      }
      if student.Some? {
        DeleteStudent(student.value);
        forall t | t in students ensures students[t].user != u {
          assert t in old(students) && t != student.value;
        }
      }
      RemoveUser(u);
    }

    /** The last step of the cascade: a user no profile refers to any more is removed. */
    method RemoveUser(u: UserId)
      requires Valid() && u in users
      requires forall f :: f in faculties ==> faculties[f].user != u
      requires forall t :: t in students ==> students[t].user != u
      modifies this`users
      ensures Valid()
      ensures users == old(users) - {u}
    {
      RemoveUserKeeps(users, faculties, students, subjects, u);
      users := users - {u};
    }
  }

  /** In a valid store the one-to-one links make the lookups by user exact, a subject
      code names one subject and a username one user. */
  lemma ValidStoreIdentifies(db: Store, u: UserId, f: FacultyId, t: StudentId, j: SubjectId, k: SubjectId)
    requires db.Valid()
    ensures f in db.faculties && db.faculties[f].user == u ==> db.FacultyOfUser(u) == Some(f)
    ensures t in db.students && db.students[t].user == u ==> db.StudentOfUser(u) == Some(t)
    ensures j in db.subjects && k in db.subjects && db.subjects[j].code == db.subjects[k].code ==> j == k
    ensures forall v :: u in db.users && v in db.users && db.users[v].username == db.users[u].username ==> v == u
  {
  }

  /** A subject has at most one owner, so two faculties never share a taught subject. */
  lemma TaughtSubjectsAreDisjoint(db: Store, f: FacultyId, g: FacultyId)
    requires f != g
    ensures db.SubjectsTaughtBy(f) !! db.SubjectsTaughtBy(g)
  {
  }

  /** The join table is one relation: a subject is among a student's subjects exactly
      when the student is among that subject's enrolled students. */
  lemma EnrollmentIsOneRelation(db: Store, t: StudentId, j: SubjectId)
    requires db.ReferencesResolve()
    ensures j in db.SubjectsOf(t) <==> t in db.EnrolledStudents(j)
    ensures j in db.SubjectsOf(t) <==> (t, j) in db.enrollment
  {
  }
}
