/** The serializers of the four resources: which fields they declare, which of those a
    payload may write and a response shows, and the nested create and update that write
    a Faculty or Student profile together with its linked User. */
module Serializers {
  import opened Models
  import opened Database

  // ---------------------------------------------------------------------------
  // Field declarations
  // ---------------------------------------------------------------------------

  const UserSerializerFields: set<string> :=
    {"id", "username", "email", "first_name", "last_name", "contact_number", "password"}
  /** The auto primary key is read-only without being listed. */
  const UserReadOnly: set<string> := {"id"}
  const UserWriteOnly: set<string> := {"password"}

  const SubjectSerializerFields: set<string> :=
    {"id", "name", "code", "description", "faculty", "faculty_name"}
  const SubjectReadOnly: set<string> := {"id", "faculty_name"}

  const FacultySerializerFields: set<string> :=
    {"id", "user", "department", "qualification", "date_joined", "subjects_taught"}
  const FacultyReadOnly: set<string> := {"id", "date_joined", "subjects_taught"}

  const StudentSerializerFields: set<string> :=
    {"id", "user", "profile_pic", "date_of_birth", "gender", "blood_group", "address", "subjects",
     "enrollment_date"}
  const StudentReadOnly: set<string> := {"id", "enrollment_date", "subjects"}

  /** The fields a payload may carry. */
  function Writable(fields: set<string>, readOnly: set<string>): set<string> {
    fields - readOnly
  }

  /** The fields a response shows. */
  function Readable(fields: set<string>, writeOnly: set<string>): set<string> {
    fields - writeOnly
  }

  // ---------------------------------------------------------------------------
  // Payload fields: exactly the writable fields of each serializer
  // ---------------------------------------------------------------------------

  datatype UserField =
    UsernameField | EmailField | FirstNameField | LastNameField | ContactNumberField | PasswordField

  function UserFieldName(f: UserField): string {
    match f
    case UsernameField => "username"
    case EmailField => "email"
    case FirstNameField => "first_name"
    case LastNameField => "last_name"
    case ContactNumberField => "contact_number"
    case PasswordField => "password"
  }

  /** The profile's own columns a payload may set; the nested "user" is carried apart. */
  datatype FacultyField = DepartmentField | QualificationField

  function FacultyFieldName(f: FacultyField): string {
    match f
    case DepartmentField => "department"
    case QualificationField => "qualification"
  }

  datatype StudentField = ProfilePicField | DateOfBirthField | GenderField | BloodGroupField | AddressField

  function StudentFieldName(f: StudentField): string {
    match f
    case ProfilePicField => "profile_pic"
    case DateOfBirthField => "date_of_birth"
    case GenderField => "gender"
    case BloodGroupField => "blood_group"
    case AddressField => "address"
  }

  /** The user payload carries every writable UserSerializer field and nothing else:
      neither the key nor user_type can be supplied. */
  lemma UserFieldsAreWritable()
    ensures forall f :: UserFieldName(f) in Writable(UserSerializerFields, UserReadOnly)
    ensures forall n :: n in Writable(UserSerializerFields, UserReadOnly) ==> exists f :: UserFieldName(f) == n
    ensures "id" !in Writable(UserSerializerFields, UserReadOnly)
  {
    forall n | n in Writable(UserSerializerFields, UserReadOnly) ensures exists f :: UserFieldName(f) == n {
      if n == "username" { assert UserFieldName(UsernameField) == n; }
      else if n == "email" { assert UserFieldName(EmailField) == n; }
      else if n == "first_name" { assert UserFieldName(FirstNameField) == n; }
      else if n == "last_name" { assert UserFieldName(LastNameField) == n; }
      else if n == "contact_number" { assert UserFieldName(ContactNumberField) == n; }
      else { assert UserFieldName(PasswordField) == n; }
    }
  }

  /** A Faculty payload writes its user and its own columns; the key, the join date and
      the taught subjects are read-only. */
  lemma FacultyFieldsAreWritable()
    ensures forall f :: FacultyFieldName(f) in Writable(FacultySerializerFields, FacultyReadOnly)
    ensures forall n :: n in Writable(FacultySerializerFields, FacultyReadOnly) ==>
      n == "user" || exists f :: FacultyFieldName(f) == n
    ensures Writable(FacultySerializerFields, FacultyReadOnly) !! {"id", "date_joined", "subjects_taught"}
  {
    forall n | n in Writable(FacultySerializerFields, FacultyReadOnly) && n != "user"
      ensures exists f :: FacultyFieldName(f) == n
    {
      if n == "department" { assert FacultyFieldName(DepartmentField) == n; }
      else { assert FacultyFieldName(QualificationField) == n; }
    }
  }

  /** A Student payload writes its user and its own columns; the key, the enrollment date
      and the enrolled subjects are read-only. */
  lemma StudentFieldsAreWritable()
    ensures forall f :: StudentFieldName(f) in Writable(StudentSerializerFields, StudentReadOnly)
    ensures forall n :: n in Writable(StudentSerializerFields, StudentReadOnly) ==>
      n == "user" || exists f :: StudentFieldName(f) == n
    ensures Writable(StudentSerializerFields, StudentReadOnly) !! {"id", "enrollment_date", "subjects"}
  {
    forall n | n in Writable(StudentSerializerFields, StudentReadOnly) && n != "user"
      ensures exists f :: StudentFieldName(f) == n
    {
      if n == "profile_pic" { assert StudentFieldName(ProfilePicField) == n; }
      else if n == "date_of_birth" { assert StudentFieldName(DateOfBirthField) == n; }
      else if n == "gender" { assert StudentFieldName(GenderField) == n; }
      else if n == "blood_group" { assert StudentFieldName(BloodGroupField) == n; }
      else { assert StudentFieldName(AddressField) == n; }
    }
  }

  /** A Subject payload: its name, code, description and owner. */
  datatype SubjectData = SubjectData(name: string, code: string, description: string, faculty: Option<FacultyId>)

  /** The Subject payload carries exactly the writable SubjectSerializer fields: the key
      and the owner's displayed name are read-only. */
  lemma SubjectFieldsAreWritable()
    ensures Writable(SubjectSerializerFields, SubjectReadOnly) == {"name", "code", "description", "faculty"}
  {
  }

  // ---------------------------------------------------------------------------
  // Output of a user: the password is write-only
  // ---------------------------------------------------------------------------

  datatype Json = JInt(n: int) | JStr(s: string)

  function UserRepresentation(id: UserId, u: User): (r: map<string, Json>)
    ensures r.Keys == Readable(UserSerializerFields, UserWriteOnly)
    ensures "password" !in r
    ensures r["id"] == JInt(id) && r["username"] == JStr(u.username)
  {
    map["id" := JInt(id), "username" := JStr(u.username), "email" := JStr(u.email),
        "first_name" := JStr(u.firstName), "last_name" := JStr(u.lastName),
        "contact_number" := JStr(u.contactNumber)]
  }

  // ---------------------------------------------------------------------------
  // User columns as the payload sees them
  // ---------------------------------------------------------------------------

  datatype Attr = Text(text: string) | Credential(password: PasswordState)

  function UserAttr(u: User, f: UserField): Attr {
    match f
    case UsernameField => Text(u.username)
    case EmailField => Text(u.email)
    case FirstNameField => Text(u.firstName)
    case LastNameField => Text(u.lastName)
    case ContactNumberField => Text(u.contactNumber)
    case PasswordField => Credential(u.password)
  }

  /** How an update treats a supplied password: the Faculty serializer always calls
      set_password; the Student serializer only for a non-empty value and assigns an
      empty one to the column as it is. */
  datatype PasswordRule = AlwaysHash | HashIfNonEmpty

  function StoredPassword(v: string, rule: PasswordRule): (r: PasswordState)
    ensures r.Hashed? <==> rule == AlwaysHash || v != ""
    ensures r.Hashed? ==> r.raw == v
    ensures r.Raw? ==> |r.literal| == 0 && rule.HashIfNonEmpty?
    ensures !r.Unusable?
  {
    if rule == AlwaysHash || v != "" then Hashed(v) else Raw(v)
  }

  /** One step of the update loop: setattr, or set_password for the password. */
  function SetUserAttr(u: User, f: UserField, v: string, rule: PasswordRule): User {
    match f
    case UsernameField => u.(username := v)
    case EmailField => u.(email := v)
    case FirstNameField => u.(firstName := v)
    case LastNameField => u.(lastName := v)
    case ContactNumberField => u.(contactNumber := v)
    case PasswordField => u.(password := StoredPassword(v, rule))
  }

  function Lookup(data: map<UserField, string>, f: UserField, otherwise: string): string {
    if f in data then data[f] else otherwise
  }

  /** The user after an update with the nested user payload data. */
  function UpdatedUser(u: User, data: map<UserField, string>, rule: PasswordRule): (r: User)
    ensures forall f :: f !in data ==> UserAttr(r, f) == UserAttr(u, f)
    ensures forall f :: f in data && f != PasswordField ==> UserAttr(r, f) == Text(data[f])
    ensures PasswordField in data && (rule == AlwaysHash || data[PasswordField] != "") ==>
      r.password == Hashed(data[PasswordField])
    ensures PasswordField in data && rule == HashIfNonEmpty && data[PasswordField] == "" ==>
      r.password == Raw("")
    ensures r.userType == u.userType && r.isSuperuser == u.isSuperuser
  {
    u.(username := Lookup(data, UsernameField, u.username),
       email := Lookup(data, EmailField, u.email),
       firstName := Lookup(data, FirstNameField, u.firstName),
       lastName := Lookup(data, LastNameField, u.lastName),
       contactNumber := Lookup(data, ContactNumberField, u.contactNumber),
       password := if PasswordField in data then StoredPassword(data[PasswordField], rule) else u.password)
  }

  /** One more visited entry of the payload is one more setattr. */
  lemma UpdatedUserStep(u: User, done: map<UserField, string>, f: UserField, v: string, rule: PasswordRule)
    ensures SetUserAttr(UpdatedUser(u, done, rule), f, v, rule) == UpdatedUser(u, done[f := v], rule)
  {
  }

  /** The entries of data whose keys the loop has already visited. */
  function Visited<K, V>(data: map<K, V>, pending: set<K>): map<K, V> {
    map k | k in data && k !in pending :: data[k]
  }

  /** What the validated nested user payload of an update guarantees: a new username is
      not another user's, and a new contact number passes the column validator. */
  ghost predicate UserDataAcceptable(db: Store, uid: UserId, data: map<UserField, string>)
    reads db
  {
    && (UsernameField in data ==>
          forall v :: v in db.users && v != uid ==> db.users[v].username != data[UsernameField])
    && (ContactNumberField in data ==> ValidContactNumber(data[ContactNumberField]))
  }

  /** The user-update loop shared by both serializers: every (attr, value) pair of the
      nested payload is applied to the user, in whatever order the payload yields them. */
  method ApplyUserData(u: User, data: map<UserField, string>, rule: PasswordRule) returns (user: User)
    ensures user == UpdatedUser(u, data, rule)
  {
    user := u;
    var pending := data.Keys;
    while pending != {}
      invariant pending <= data.Keys
      invariant user == UpdatedUser(u, Visited(data, pending), rule)
      decreases pending
    {
      var attr :| attr in pending;
      assert Visited(data, pending - {attr}) == Visited(data, pending)[attr := data[attr]];
      UpdatedUserStep(u, Visited(data, pending), attr, data[attr], rule);
      user := SetUserAttr(user, attr, data[attr], rule);
      pending := pending - {attr};
    }
    assert Visited(data, {}) == data;
  }

  /** Applies the nested user payload to the linked user and saves it. */
  method SaveUserData(db: Store, uid: UserId, data: map<UserField, string>, rule: PasswordRule)
    requires db.Valid() && uid in db.users && UserDataAcceptable(db, uid, data)
    modifies db
    ensures db.Valid()
    ensures db.users == old(db.users)[uid := UpdatedUser(old(db.users[uid]), data, rule)]
    ensures db.faculties == old(db.faculties) && db.subjects == old(db.subjects)
    ensures db.students == old(db.students) && db.enrollment == old(db.enrollment)
  {
    var user := ApplyUserData(db.users[uid], data, rule);
    assert ValidUser(user) by {
      assert ValidUser(db.users[uid]);
      assert UserAttr(user, ContactNumberField) == if ContactNumberField in data
        then Text(data[ContactNumberField]) else UserAttr(db.users[uid], ContactNumberField);
    }
    forall v | v in db.users && v != uid ensures db.users[v].username != user.username {
      assert UserAttr(user, UsernameField) == if UsernameField in data
        then Text(data[UsernameField]) else UserAttr(db.users[uid], UsernameField);
    }
    db.SaveUser(uid, user);
  }

  // ---------------------------------------------------------------------------
  // Profile columns as the payload sees them
  // ---------------------------------------------------------------------------

  function FacultyAttr(row: Faculty, f: FacultyField): string {
    match f
    case DepartmentField => row.department
    case QualificationField => row.qualification
  }

  function SetFacultyAttr(row: Faculty, f: FacultyField, v: string): Faculty {
    match f
    case DepartmentField => row.(department := v)
    case QualificationField => row.(qualification := v)
  }

  /** The profile after an update: each supplied column is overwritten and every other
      column, the user link and the join date among them, keeps its value. */
  function PatchedFaculty(row: Faculty, data: map<FacultyField, string>): (r: Faculty)
    ensures forall f :: FacultyAttr(r, f) == if f in data then data[f] else FacultyAttr(row, f)
    ensures r.user == row.user && r.dateJoined == row.dateJoined
  {
    row.(department := if DepartmentField in data then data[DepartmentField] else row.department,
         qualification := if QualificationField in data then data[QualificationField] else row.qualification)
  }

  /** The profile-update loop: setattr for every (attr, value) pair of the payload. */
  method ApplyFacultyData(r: Faculty, data: map<FacultyField, string>) returns (row: Faculty)
    ensures row == PatchedFaculty(r, data)
  {
    row := r;
    var pending := data.Keys;
    while pending != {}
      invariant pending <= data.Keys
      invariant row == PatchedFaculty(r, Visited(data, pending))
      decreases pending
    {
      var attr :| attr in pending;
      assert Visited(data, pending - {attr}) == Visited(data, pending)[attr := data[attr]];
      row := SetFacultyAttr(row, attr, data[attr]);
      pending := pending - {attr};
    }
    assert Visited(data, {}) == data;
  }

  predicate FacultyDataAcceptable(data: map<FacultyField, string>) {
    && (DepartmentField in data ==> |data[DepartmentField]| <= 100)
    && (QualificationField in data ==> |data[QualificationField]| <= 200)
  }

  datatype StudentValue =
    | PicValue(pic: Option<string>)
    | DateValue(date: Date)
    | GenderValue(gender: Gender)
    | BloodGroupValue(group: BloodGroup)
    | TextValue(text: string)

  /** The value has the type of the column; the serializer's validation guarantees this. */
  predicate Fits(f: StudentField, v: StudentValue) {
    match f
    case ProfilePicField => v.PicValue?
    case DateOfBirthField => v.DateValue?
    case GenderField => v.GenderValue?
    case BloodGroupField => v.BloodGroupValue?
    case AddressField => v.TextValue?
  }

  predicate StudentDataAcceptable(data: map<StudentField, StudentValue>) {
    forall f :: f in data ==> Fits(f, data[f])
  }

  function StudentAttr(row: Student, f: StudentField): (v: StudentValue)
    ensures Fits(f, v)
  {
    match f
    case ProfilePicField => PicValue(row.profilePic)
    case DateOfBirthField => DateValue(row.dateOfBirth)
    case GenderField => GenderValue(row.gender)
    case BloodGroupField => BloodGroupValue(row.bloodGroup)
    case AddressField => TextValue(row.address)
  }

  function SetStudentAttr(row: Student, f: StudentField, v: StudentValue): Student
    requires Fits(f, v)
  {
    match f
    case ProfilePicField => row.(profilePic := v.pic)
    case DateOfBirthField => row.(dateOfBirth := v.date)
    case GenderField => row.(gender := v.gender)
    case BloodGroupField => row.(bloodGroup := v.group)
    case AddressField => row.(address := v.text)
  }

  lemma PatchedStudentStep(row: Student, done: map<StudentField, StudentValue>, f: StudentField, v: StudentValue)
    requires StudentDataAcceptable(done) && Fits(f, v)
    ensures StudentDataAcceptable(done[f := v])
    ensures SetStudentAttr(PatchedStudent(row, done), f, v) == PatchedStudent(row, done[f := v])
  {
  }

  function PatchedStudent(row: Student, data: map<StudentField, StudentValue>): (r: Student)
    requires StudentDataAcceptable(data)
    ensures forall f :: StudentAttr(r, f) == if f in data then data[f] else StudentAttr(row, f)
    ensures r.user == row.user && r.enrollmentDate == row.enrollmentDate
  {
    row.(profilePic := if ProfilePicField in data then data[ProfilePicField].pic else row.profilePic,
         dateOfBirth := if DateOfBirthField in data then data[DateOfBirthField].date else row.dateOfBirth,
         gender := if GenderField in data then data[GenderField].gender else row.gender,
         bloodGroup := if BloodGroupField in data then data[BloodGroupField].group else row.bloodGroup,
         address := if AddressField in data then data[AddressField].text else row.address)
  }

  /** The profile-update loop of the Student serializer. */
  method ApplyStudentData(r: Student, data: map<StudentField, StudentValue>) returns (row: Student)
    requires StudentDataAcceptable(data)
    ensures row == PatchedStudent(r, data)
  {
    row := r;
    var pending := data.Keys;
    while pending != {}
      invariant pending <= data.Keys
      invariant row == PatchedStudent(r, Visited(data, pending))
      decreases pending
    {
      var attr :| attr in pending;
      assert Visited(data, pending - {attr}) == Visited(data, pending)[attr := data[attr]];
      PatchedStudentStep(r, Visited(data, pending), attr, data[attr]);
      row := SetStudentAttr(row, attr, data[attr]);
      pending := pending - {attr};
    }
    assert Visited(data, {}) == data;
  }

  // ---------------------------------------------------------------------------
  // Create
  // ---------------------------------------------------------------------------

  /** User.objects.create_user(**user_data) once the password has been popped: absent
      optional fields are blank, the password is unusable and the user is no superuser. */
  function CreateUserRow(data: map<UserField, string>, t: UserType): (u: User)
    requires UsernameField in data
    ensures u.userType == t && !u.isSuperuser && u.password == Unusable
    ensures forall f :: f != PasswordField ==> UserAttr(u, f) == Text(Lookup(data, f, ""))
  {
    User(data[UsernameField], Lookup(data, EmailField, ""), Lookup(data, FirstNameField, ""),
         Lookup(data, LastNameField, ""), Lookup(data, ContactNumberField, ""), t, false, Unusable)
  }

  /** The user row a nested create leaves in the store for the user payload data. */
  function CreatedUser(data: map<UserField, string>, t: UserType): (u: User)
    requires UsernameField in data
    ensures u.userType == t && !u.isSuperuser
    ensures !u.password.Raw?
    ensures u.password.Hashed? <==> PasswordField in data && data[PasswordField] != ""
    ensures u.password.Hashed? ==> u.password.raw == data[PasswordField]
    ensures forall f :: f != PasswordField ==> UserAttr(u, f) == Text(Lookup(data, f, ""))
  {
    var base := CreateUserRow(data - {PasswordField}, t);
    if PasswordField in data && data[PasswordField] != "" then base.(password := Hashed(data[PasswordField]))
    else base
  }

  /** What the validated user payload of a create guarantees. */
  ghost predicate UserCreatable(db: Store, data: map<UserField, string>)
    reads db
  {
    && UsernameField in data
    && !db.UsernameTaken(data[UsernameField])
    && (ContactNumberField in data ==> ValidContactNumber(data[ContactNumberField]))
  }

  datatype FacultyCreateData = FacultyCreateData(
    user: map<UserField, string>, department: string, qualification: string)

  datatype StudentCreateData = StudentCreateData(
    user: map<UserField, string>, profilePic: Option<string>, dateOfBirth: Date, gender: Gender,
    bloodGroup: BloodGroup, address: string)

  /** Pops the password, creates the user with the given role and then, for a non-empty
      password only, hashes and saves it. */
  method CreateUserFromData(db: Store, data: map<UserField, string>, t: UserType) returns (uid: UserId)
    requires db.Valid() && UserCreatable(db, data)
    modifies db
    ensures db.Valid()
    ensures uid !in old(db.users) && uid == old(db.nextUserId)
    ensures db.users == old(db.users)[uid := CreatedUser(data, t)]
    ensures db.faculties == old(db.faculties) && db.subjects == old(db.subjects)
    ensures db.students == old(db.students) && db.enrollment == old(db.enrollment)
    ensures db.nextFacultyId == old(db.nextFacultyId) && db.nextStudentId == old(db.nextStudentId)
  {
    var userData := data;
    var password: Option<string> := None;
    if PasswordField in userData {
      password := Some(userData[PasswordField]);
      userData := userData - {PasswordField};
    }
    assert userData == data - {PasswordField};
    var user := CreateUserRow(userData, t);
    assert ValidUser(user) by {
      if ContactNumberField !in userData { assert user.contactNumber == ""; }
    }
    uid := db.InsertUser(user);
    if password.Some? && password.value != "" {
      user := user.(password := Hashed(password.value));
      db.SaveUser(uid, user);
    }
  }

  /** FacultySerializer.create: the new user always gets user_type faculty, and exactly
      one Faculty row refers to it. */
  method CreateFaculty(db: Store, data: FacultyCreateData, today: Date) returns (id: FacultyId)
    requires db.Valid() && UserCreatable(db, data.user)
    requires |data.department| <= 100 && |data.qualification| <= 200
    modifies db
    ensures db.Valid()
    ensures var uid := old(db.nextUserId);
      && uid !in old(db.users)
      && db.users == old(db.users)[uid := CreatedUser(data.user, FacultyUser)]
      && id !in old(db.faculties)
      && db.faculties == old(db.faculties)[id := Faculty(uid, data.department, data.qualification, today)]
      && (forall f :: f in db.faculties && db.faculties[f].user == uid ==> f == id)
    ensures db.subjects == old(db.subjects) && db.students == old(db.students)
    ensures db.enrollment == old(db.enrollment)
  {
    var uid := CreateUserFromData(db, data.user, FacultyUser);
    id := db.InsertFaculty(Faculty(uid, data.department, data.qualification, today));
  }

  /** StudentSerializer.create: the new user always gets user_type student, and exactly
      one Student row refers to it, with no subjects. */
  method CreateStudent(db: Store, data: StudentCreateData, today: Date) returns (id: StudentId)
    requires db.Valid() && UserCreatable(db, data.user)
    modifies db
    ensures db.Valid()
    ensures var uid := old(db.nextUserId);
      && uid !in old(db.users)
      && db.users == old(db.users)[uid := CreatedUser(data.user, StudentUser)]
      && id !in old(db.students)
      && db.students == old(db.students)[id := Student(uid, data.profilePic, data.dateOfBirth, data.gender,
                                                       data.bloodGroup, data.address, today)]
      && (forall t :: t in db.students && db.students[t].user == uid ==> t == id)
      && db.SubjectsOf(id) == {}
    ensures db.faculties == old(db.faculties) && db.subjects == old(db.subjects)
    ensures db.enrollment == old(db.enrollment)
  {
    var uid := CreateUserFromData(db, data.user, StudentUser);
    id := db.InsertStudent(Student(uid, data.profilePic, data.dateOfBirth, data.gender, data.bloodGroup,
                                   data.address, today));
  }

  // ---------------------------------------------------------------------------
  // Update
  // ---------------------------------------------------------------------------

  /** Validated data of an update: the nested user payload when the "user" key is
      present, and the profile's own columns. */
  datatype FacultyUpdateData = FacultyUpdateData(user: Option<map<UserField, string>>, fields: map<FacultyField, string>)

  datatype StudentUpdateData = StudentUpdateData(
    user: Option<map<UserField, string>>, fields: map<StudentField, StudentValue>)

  /** FacultySerializer.update: a supplied password is always hashed, even when empty. */
  method UpdateFaculty(db: Store, id: FacultyId, data: FacultyUpdateData)
    requires db.Valid() && id in db.faculties
    requires data.user.Some? ==> UserDataAcceptable(db, db.faculties[id].user, data.user.value)
    requires FacultyDataAcceptable(data.fields)
    modifies db
    ensures db.Valid()
    ensures var uid := old(db.faculties[id].user);
      db.users == if data.user.Some? then old(db.users)[uid := UpdatedUser(old(db.users[uid]), data.user.value, AlwaysHash)]
                  else old(db.users)
    ensures db.faculties == old(db.faculties)[id := PatchedFaculty(old(db.faculties[id]), data.fields)]
    ensures db.subjects == old(db.subjects) && db.students == old(db.students)
    ensures db.enrollment == old(db.enrollment)
  {
    if data.user.Some? {
      SaveUserData(db, db.faculties[id].user, data.user.value, AlwaysHash);
    }
    var row := ApplyFacultyData(db.faculties[id], data.fields);
    db.SaveFaculty(id, row);
  }

  /** StudentSerializer.update: a supplied password is hashed only when non-empty. */
  method UpdateStudent(db: Store, id: StudentId, data: StudentUpdateData)
    requires db.Valid() && id in db.students
    requires data.user.Some? ==> UserDataAcceptable(db, db.students[id].user, data.user.value)
    requires StudentDataAcceptable(data.fields)
    modifies db
    ensures db.Valid()
    ensures var uid := old(db.students[id].user);
      db.users == if data.user.Some? then old(db.users)[uid := UpdatedUser(old(db.users[uid]), data.user.value, HashIfNonEmpty)]
                  else old(db.users)
    ensures db.students == old(db.students)[id := PatchedStudent(old(db.students[id]), data.fields)]
    ensures db.faculties == old(db.faculties) && db.subjects == old(db.subjects)
    ensures db.enrollment == old(db.enrollment)
  {
    if data.user.Some? {
      SaveUserData(db, db.students[id].user, data.user.value, HashIfNonEmpty);
    }
    var row := ApplyStudentData(db.students[id], data.fields);
    db.SaveStudent(id, row);
  }
}
