# College records backend: a verified model of its authorization and record keeping

The backend keeps academic records: users, each either `faculty` or `student`; a Faculty
or a Student profile linked one-to-one to a user; subjects, each owned by at most one
faculty; and the enrollment relation between students and subjects. This project models
the core of that backend over an abstract in-memory store:

- `Models.dfy` holds the record types and the column rules. These are the role, gender
  and blood-group choice sets, the contact-number validator `^\+?1?\d{9,15}$` and the
  column lengths.
- `Database.dfy` holds a `Store` class with one map per table and a set of
  (student, subject) pairs for the enrollment join table. Its invariant `Valid` covers
  one-to-one profile links, unique usernames and subject codes, and foreign keys that
  resolve. It also models the object-manager operations the core uses (create, save, the
  many-to-many `add`) and the on-delete rules: CASCADE from a user to its profiles, and
  SET_NULL from a faculty to the subjects it owned.
- `Serializers.dfy` holds the serializers' field, read-only and write-only declarations.
  It also holds the nested create and update of a Faculty or Student profile together
  with its user. Their `for attr, value in ... items()` loops are `while` loops over the
  payload's keys, each proved equal to a specification function.
- `Views.dfy` holds the two permission classes, the `get_queryset` of each resource, and
  the custom actions `my_students`, `add_student`, `update_student` and `my_subjects`. It
  also holds `perform_create`, which forces a new subject's owner.

Password hashing is symbolic. A password column is `Unusable`, `Hashed(raw)` for the
hash of `raw`, or `Raw(literal)` for a value assigned to the column directly. The
requester is given as a `Principal`: anonymous, or a user with its id, its superuser flag
and its role. A query that raises an uncaught exception answers with a server error
(500). Responses carry their status and detail message.

Where the documented behaviour and the code differ, the model follows the code:

- `Faculty.objects.get(user=user)` inside the Student `get_queryset` raises
  `DoesNotExist`, and nothing catches it. A faculty-type user without a Faculty row
  therefore gets a server error, not a 404.
- `email` is not unique in the user model, so two users may share an address. Only
  usernames (and subject codes) are unique.

## Model

| member | source | states |
|---|---|---|
| Models.UserTypeCode | core/models.py:7-12 | every role is stored as one of the two choice codes, within the column's 10 characters |
| Models.ParseUserType | core/models.py:7-12 | a code is accepted exactly when it is `faculty` or `student`, and parsing inverts the stored code |
| Models.UserTypeRoundTrip | core/models.py:7-12 | encoding a role and parsing it back gives the same role |
| Models.GenderCode | core/models.py:66-70 | every gender is stored as one of M, F, O |
| Models.ParseGender | core/models.py:86 | a gender code is accepted exactly when it is one of the three choices |
| Models.GenderRoundTrip | core/models.py:66-70 | gender codes round-trip |
| Models.BloodGroupCode | core/models.py:72-77 | every blood group is stored as one of the eight codes, within 3 characters |
| Models.ParseBloodGroup | core/models.py:87 | a blood-group code is accepted exactly when it is one of the eight choices |
| Models.BloodGroupRoundTrip | core/models.py:72-77 | blood-group codes round-trip |
| Models.PhonePatternMatch | core/models.py:15 | an accepted string has 9 to 17 characters: a digit or `+` first, digits after it |
| Models.MatchesPhonePattern | core/models.py:15 | the pattern `^\+?1?\d{9,15}$` read as a set of strings: those with an optional `+`, then an optional `1`, then 9 to 15 digits |
| Models.PhonePatternMatchCorrect | core/models.py:15 | the direct check accepts exactly the strings the pattern matches: an optional `+`, an optional `1`, then 9 to 15 digits |
| Models.PhonePatternMatchSound | core/models.py:15 | every string the direct check accepts can be split into the optional `+`, the optional `1` and 9 to 15 digits |
| Models.PhonePatternMatchComplete | core/models.py:15 | every string that can be so split passes the direct check |
| Models.ValidContactNumber | core/models.py:13-17 | a contact number is valid exactly when it is blank, or fits the 15-character column and matches the pattern |
| Models.ValidContactNumberShape | core/models.py:13-17 | a non-blank valid contact number has 9 to 15 characters, digits after the first, and a first character that is a digit or `+` |
| Models.ValidFaculty | core/models.py:41-42 | a stored department has at most 100 characters and a qualification at most 200 |
| Models.ValidSubject | core/models.py:52-53 | a stored subject name has at most 100 characters and a code at most 20 |
| Database.Store.ProfilesOneToOne | core/models.py:40-79 | every Faculty and Student row links to an existing user, and a user has at most one Faculty row and at most one Student row |
| Database.Store.ReferencesResolve | core/models.py:55-89 | a subject's owner is null or an existing Faculty row, and every join row names an existing student and subject |
| Database.Store.UsernamesUnique | core/models.py:6 | no two users share a username |
| Database.Store.CodesUnique | core/models.py:53 | no two subjects share a code |
| Database.Store.Valid | core/models.py:40-89 | the store invariant: keys come from the auto-increment sequences, the one-to-one links, resolving references, unique usernames and codes, and rows within their column limits |
| Database.ValidStoreIdentifies | core/models.py:40-79 | in a valid store the lookup by user finds exactly the linked Faculty or Student row, a subject code names one subject, and a username one user |
| Database.WithoutOwner | core/models.py:55-60 | SET_NULL: no subject is removed, every subject the deleted faculty owned now has a null owner, and every other column and every other subject is unchanged |
| Database.WithoutStudent | core/models.py:89 | deleting a student removes exactly its join rows |
| Database.WithoutSubject | core/models.py:89 | deleting a subject removes exactly its join rows |
| Database.Store.FacultyOfUser | core/views.py:116 | the lookup by user finds that user's Faculty row, and fails only when there is none |
| Database.Store.StudentOfUser | core/models.py:79 | the lookup by user finds that user's Student row, and fails only when there is none |
| Database.Store.InsertUser | core/serializers.py:40 | a new user gets a fresh key; no other table changes; the invariant, including unique usernames, is kept |
| Database.Store.SaveUser | core/serializers.py:61 | saving replaces exactly that user's row and keeps the invariant |
| Database.Store.InsertFaculty | core/serializers.py:47 | a new Faculty row gets a fresh key; a user gets at most one Faculty row |
| Database.Store.SaveFaculty | core/serializers.py:66 | saving replaces exactly that Faculty row and keeps its user link |
| Database.Store.InsertStudent | core/serializers.py:94 | a new Student row gets a fresh key; a user gets at most one Student row |
| Database.Store.SaveStudent | core/serializers.py:113 | saving replaces exactly that Student row and keeps its user link |
| Database.Store.InsertSubject | core/models.py:51-60 | a new subject gets a fresh key; subject codes stay unique; the owner is null or an existing faculty |
| Database.Store.Enroll | core/views.py:81 | the many-to-many add is a set insert into the join table and changes nothing else |
| Database.Store.DeleteSubject | core/models.py:89 | the subject and its join rows go; students stay |
| Database.Store.DeleteStudent | core/models.py:89 | the student and its join rows go; subjects stay |
| Database.Store.DeleteFaculty | core/models.py:55-60 | the faculty goes; its subjects stay with a null owner; users, students and enrollment are unchanged |
| Database.Store.DeleteUser | core/models.py:40-79 | CASCADE: the user's Faculty row (with SET_NULL on its subjects) and Student row (with its join rows) go too, and no profile refers to the user afterwards |
| Database.Store.RemoveUser | core/models.py:40-79 | the last step of the cascade: a user no profile refers to any more is removed and the invariant is kept |
| Database.Store.SubjectsTaughtBy | core/views.py:55 | `Subject.objects.filter(faculty=f)`: exactly the stored subjects whose owner is `f` |
| Database.Store.EnrolledStudents | core/models.py:89 | `subject.enrolled_students`: exactly the stored students paired with the subject in the join table |
| Database.Store.SubjectsOf | core/views.py:153 | `student.subjects.all()`: exactly the stored subjects paired with the student in the join table |
| Database.TaughtSubjectsAreDisjoint | core/models.py:55-60 | a subject has one owner at most, so two faculties never share a taught subject |
| Database.EnrollmentIsOneRelation | core/models.py:89 | a subject is among a student's subjects exactly when the student is among the subject's enrolled students |
| Serializers.UserFieldsAreWritable | core/serializers.py:11-15 | a user payload can carry exactly the writable user fields; the key and `user_type` cannot be supplied |
| Serializers.FacultyFieldsAreWritable | core/serializers.py:31-32 | a Faculty payload writes its user and its own columns; `id`, `date_joined` and `subjects_taught` are read-only |
| Serializers.StudentFieldsAreWritable | core/serializers.py:75-77 | a Student payload writes its user and its own columns; `id`, `enrollment_date` and `subjects` are read-only |
| Serializers.SubjectFieldsAreWritable | core/serializers.py:17-23 | a Subject payload writes exactly name, code, description and faculty; `id` and `faculty_name` are read-only |
| Serializers.UserRepresentation | core/serializers.py:11-14 | a user's output shows exactly the readable fields and never the write-only password |
| Serializers.StoredPassword | core/serializers.py:57-58 | what a supplied password leaves in the column: a hash of it under the Faculty rule always, under the Student rule only when non-empty (serializers.py:104-107), and otherwise the empty value assigned as is; never the unusable marker |
| Serializers.UpdatedUser | core/serializers.py:56-60 | unsupplied user fields keep their values; supplied ones are overwritten; a supplied password is hashed (Faculty always, Student only when non-empty, with an empty value assigned as is); role and superuser flag never change |
| Serializers.ApplyUserData | core/serializers.py:103-107 | the loop over the nested user payload, in any key order, yields the updated user |
| Serializers.SaveUserData | core/serializers.py:51-61 | the linked user becomes the updated user; no other row changes; usernames stay unique and contact numbers valid |
| Serializers.PatchedFaculty | core/serializers.py:64-66 | every supplied Faculty column is overwritten and every other one, the user link and join date included, keeps its value |
| Serializers.ApplyFacultyData | core/serializers.py:64-66 | the loop over the profile payload, in any key order, yields the patched Faculty row |
| Serializers.PatchedStudent | core/serializers.py:111-113 | every supplied Student column is overwritten and every other one, the user link and enrollment date included, keeps its value |
| Serializers.ApplyStudentData | core/serializers.py:111-113 | the loop over the profile payload, in any key order, yields the patched Student row |
| Serializers.CreateUserRow | core/serializers.py:40 | `create_user` without a password: the given role, no superuser flag, an unusable password, and blank for every absent field |
| Serializers.CreatedUser | core/serializers.py:80-91 | a created user has the forced role and is no superuser; its password is hashed exactly when a non-empty one was supplied and is otherwise unusable, never stored as given; its other fields are the supplied values or blank |
| Serializers.CreateUserFromData | core/serializers.py:35-44 | the store gains exactly the created user under a fresh key |
| Serializers.CreateFaculty | core/serializers.py:34-48 | the new user is a faculty user whatever the payload says, and exactly one new Faculty row refers to it |
| Serializers.CreateStudent | core/serializers.py:79-95 | the new user is a student user, and exactly one new Student row refers to it, with no subjects |
| Serializers.UpdateFaculty | core/serializers.py:50-67 | without a `user` key the user is unchanged; with one only the supplied fields change and a password is always rehashed; the profile is patched; subjects, students and enrollment are unchanged |
| Serializers.UpdateStudent | core/serializers.py:97-114 | as for Faculty, but a password is rehashed only when non-empty; enrollment is unchanged |
| Views.IsUserOrReadOnly | core/views.py:16-23 | safe methods always pass; any other method passes exactly when the object has a user and it is the requester |
| Views.NoSuperuserBypass | core/views.py:20-22 | a superuser gets no write access to another user's object |
| Views.IsFacultyUser | core/views.py:29-30 | passes exactly for an authenticated faculty-type requester |
| Views.FacultyQueryset | core/views.py:46-49 | a superuser sees every Faculty row; anyone else exactly the rows linked to themselves |
| Views.FacultyQuerysetIsOwnProfile | core/views.py:46-49 | a non-superuser sees at most one Faculty row, their own, or none |
| Views.StudentsOfFaculty | core/views.py:117 | `filter(subjects__faculty=f).distinct()`: each stored student enrolled in some subject `f` owns, once |
| Views.StudentQueryset | core/views.py:112-118 | a superuser sees all students; a faculty-type user the students enrolled in a subject of their Faculty row, with the lookup raising when they have none; anyone else exactly their own Student rows |
| Views.FacultySeesUnionOfEnrollments | core/views.py:115-117 | a faculty's visible students are exactly the union of the enrolled students of the subjects it owns |
| Views.StudentQuerysetIsOwnProfile | core/views.py:118 | a student-type non-superuser sees only their own Student row, or none |
| Views.SubjectQueryset | core/views.py:176-181 | a superuser sees all subjects; a faculty-type user those whose owner's user is themselves; anyone else those a Student row of theirs is enrolled in |
| Views.FacultySeesTaughtSubjects | core/views.py:179-180 | a faculty-type user sees exactly the subjects their Faculty row owns |
| Views.StudentSeesEnrolledSubjects | core/views.py:181 | a student-type user sees exactly the subjects of their own Student row |
| Views.MyStudents | core/views.py:51-63 | 401 or 403 for a non-faculty requester; 404 when the faculty is not visible; 404 "No subjects assigned" when it owns none; otherwise always 200 with the duplicate-free union of students enrolled in its subjects |
| Views.MyStudentsMatchesVisibility | core/views.py:54-63 | for their own Faculty row a faculty gets 404 "No subjects assigned" when it owns none, and otherwise 200 with exactly the students their Student visibility shows |
| Views.Falsy | core/views.py:72 | Python truth of a request value: missing, the number 0 and the empty string are false |
| Views.SubjectAssigned | core/views.py:79 | the subject lookup by id and owning faculty finds a row |
| Views.StudentExists | core/views.py:80 | the student lookup by id finds a row |
| Views.LookupKey | core/views.py:79-80 | the key a lookup makes of a request value: a number as it is, a signed decimal string parsed, any other string a raised error |
| Views.DecimalTextValue | core/views.py:79-80 | reading the decimal text of a number back gives the number |
| Views.DecimalKeyRoundTrip | core/views.py:79-80 | the decimal string of a number looks up the same row as the number |
| Views.AddStudentResponse | core/views.py:65-95 | checks in order: permission, visible faculty, a false id by Python truth (missing, 0 or "") gives 400, a key that is not a number gives 500, subject owned by this faculty (404), student exists (404), else 200 "Student added successfully" |
| Views.DecimalKeyAnswersAsNumber | core/views.py:69-80 | positive ids sent as decimal strings are answered as the numbers are; the string "0" is true where the number 0 is false |
| Views.SubjectOfOtherFacultyIsNotFound | core/views.py:79-90 | an existing subject of another faculty gives the same 404 as a missing one, whatever the student |
| Views.AddStudentIgnoresEnrollment | core/views.py:81-85 | the answer does not depend on the enrollment already present, so a repeated request answers 200 again |
| Views.AddStudent | core/views.py:66-95 | on success the join table gains exactly that (student, subject) pair, and an already-enrolled pair leaves it unchanged; on failure nothing changes |
| Views.UpdateStudentAccess | core/views.py:123-133 | as written: 500 for an anonymous requester or a raising lookup, 404 when the student is not visible, the generic 403 when it is visible but linked to another user, and 200 exactly for its own user |
| Views.UpdateStudentGuardUnreachable | core/views.py:131-133 | as written, the action's own 403 message is never returned |
| Views.SuperuserCannotUpdateStudent | core/views.py:128-133 | as written, a superuser updating another user's student gets the generic 403 |
| Views.IsUserOrAdminOrReadOnly | core/views.py:130-131 | the rule the guard states: the owner's permission, or a superuser on an object with a user |
| Views.EditGuard | core/views.py:130-133 | the guard passes exactly the student's user or a superuser, and refuses anyone else with 403 "You do not have permission to edit this student." |
| Views.UpdateStudentAccessIntended | core/views.py:128-133 | with the guard deciding: 500 and 404 as written, the guard's own 403 for a visible student of another user when the requester is no superuser, and 200 exactly for its user or a superuser |
| Views.UpdateStudentIntendedAccessRule | core/views.py:130-133 | with the guard deciding, a superuser may update any existing student, a student-type user exactly their own, and a faculty who sees another user's student gets the guard's 403 |
| Views.RespondToStudentUpdate | core/views.py:136-140 | after the access checks: a refusal is returned unchanged and writes nothing, an invalid payload answers 400 and writes nothing, otherwise the student is patched, the linked user updated, and 200 |
| Views.UpdateStudentAction | core/views.py:123-140 | as written: the answer follows `UpdateStudentAccess`, so only the student's own user can write; the student is patched and the linked user updated with a password rehashed only when non-empty; other tables never change |
| Views.UpdateStudentActionIntended | core/views.py:128-140 | the same action with the guard deciding, so a superuser's update of a visible student is written too |
| Views.MySubjects | core/views.py:149-155 | 401 for an anonymous requester; 500 when the Student visibility lookup raises; 404 when the student is not visible; otherwise 200 with exactly the subjects the student is enrolled in |
| Views.MySubjectsMatchesVisibility | core/views.py:152-153 | a student asking for their own subjects gets exactly the subjects their visibility shows |
| Views.SubjectOwner | core/views.py:185-189 | a faculty-type creator's own Faculty row becomes the owner whatever the payload says, the lookup raising without one; anyone else keeps the payload's owner |
| Views.PerformCreate | core/views.py:183-189 | the store gains exactly one subject, with that owner and status 201, or nothing and a server error when the owner lookup raises |

## Left out

- Payload validation is represented by its outcome. Each create and update takes the
  validated payload, and what validation guarantees is a precondition: types, lengths,
  choice values, unique username and subject code, and a valid contact number.
  `update_student` takes the validation outcome as a parameter. The wording of field
  errors is not modelled.
- The password field is required and may not be blank on create, so in practice the
  create path always hashes. The model also covers an absent or empty password.
- The nested user serializer of an update re-checks username uniqueness without knowing
  the linked user. It may therefore reject an unchanged username; the model accepts the
  user's own username.
- Password hashing, salts and `check_password` are symbolic (`Hashed(raw)`). Email and
  username normalization by `create_user` is not modelled.
- Authentication (JWT) and resolving the requester are not modelled; the requester is a
  parameter.
- Clock-set dates (`auto_now_add`) are a `today` parameter. The `ImageField` upload is a
  stored path or none.
- `__str__`, `get_full_name` and the `faculty_name` output field are not modelled, and
  output formatting is modelled only for the user (`Serializers.UserRepresentation`).
- The generic list, retrieve, update and destroy handlers are framework code and are not
  modelled. What they rely on is modelled: the visibility functions and the store's
  save and delete operations with their on-delete rules.
- Ordering and pagination of result lists are not modelled: results are sets.
- Transactions, concurrent requests and the database's enforcement of unique constraints
  are not modelled. Uniqueness is part of the store invariant.
- core/admin.py and core/urls.py are not part of this model.
- Views.LookupKey: only a JSON number or a string of an optional sign and ASCII digits
  becomes a key; on the other strings `int()` accepts (surrounding whitespace, underscores
  between digits, other Unicode digits) the model raises where the code looks the row up.
- Views.AddStudentResponse: a request id is a JSON number or a string of an optional sign and
  ASCII digits. Python's `int()` also accepts surrounding whitespace, underscores between
  digits and other Unicode digits. JSON booleans, fractions, lists and objects are not
  modelled as ids.
- Users created outside the serializers (the admin, `createsuperuser`) are not modelled,
  so the `student` default of `user_type` never applies: both serializers set the role.
- Models.PhonePatternMatchCorrect: `\d` is taken as the ASCII digits 0-9, and `$` as the
  end of the string. Python also accepts other Unicode decimal digits and a single
  trailing newline.

## Findings

| source | as written | input that shows it | evidently intended | confidence | as-written member | corrected member |
|---|---|---|---|---|---|---|
| core/views.py:131 | `update_student` runs under `IsUserOrReadOnly`, whose object check for PATCH already refuses every non-owner before the action's owner-or-superuser guard runs | a superuser PATCHes `update_student` for a student linked to another user: the answer is the generic 403, and the guard's own message is never produced | the guard decides, as it and its comment say: a superuser may edit any visible student, and anyone else who sees another user's student gets the guard's own 403 (`Views.UpdateStudentActionIntended` writes under this rule; `Views.UpdateStudentAction` keeps the code as written) | high; not executed | Views.SuperuserCannotUpdateStudent | Views.UpdateStudentIntendedAccessRule |
