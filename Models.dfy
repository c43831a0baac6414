/** Records, choice sets and field validators of the academic records store:
    User (with its role and contact number), Faculty, Subject and Student. */
module Models {

  datatype Option<+T> = None | Some(value: T)

  /** Primary keys are the store's auto-increment integers. */
  type UserId = nat
  type FacultyId = nat
  type SubjectId = nat
  type StudentId = nat

  /** A calendar date; dates only flow from the clock or the payload into rows. */
  datatype Date = Date(year: int, month: int, day: int)

  // ---------------------------------------------------------------------------
  // User.user_type: a closed choice set
  // ---------------------------------------------------------------------------

  datatype UserType = FacultyUser | StudentUser

  const UserTypeChoices: set<string> := {"faculty", "student"}

  /** The stored code of a role. */
  function UserTypeCode(t: UserType): (code: string)
    ensures code in UserTypeChoices && |code| <= 10
  {
    match t
    case FacultyUser => "faculty"
    case StudentUser => "student"
  }

  /** Choice validation of a user_type code: only the two listed codes are accepted. */
  function ParseUserType(code: string): (t: Option<UserType>)
    ensures t.Some? <==> code in UserTypeChoices
    ensures t.Some? ==> UserTypeCode(t.value) == code
  {
    if code == "faculty" then Some(FacultyUser)
    else if code == "student" then Some(StudentUser)
    else None
  }

  lemma UserTypeRoundTrip(t: UserType)
    ensures ParseUserType(UserTypeCode(t)) == Some(t)
  {
  }

  // ---------------------------------------------------------------------------
  // Student.gender and Student.blood_group
  // ---------------------------------------------------------------------------

  datatype Gender = Male | Female | Other

  const GenderChoices: set<string> := {"M", "F", "O"}

  function GenderCode(g: Gender): (code: string)
    ensures code in GenderChoices && |code| == 1
  {
    match g
    case Male => "M"
    case Female => "F"
    case Other => "O"
  }

  function ParseGender(code: string): (g: Option<Gender>)
    ensures g.Some? <==> code in GenderChoices
    ensures g.Some? ==> GenderCode(g.value) == code
  {
    if code == "M" then Some(Male)
    else if code == "F" then Some(Female)
    else if code == "O" then Some(Other)
    else None
  }

  lemma GenderRoundTrip(g: Gender)
    ensures ParseGender(GenderCode(g)) == Some(g)
  {
  }

  datatype BloodGroup = APos | ANeg | BPos | BNeg | OPos | ONeg | ABPos | ABNeg

  const BloodGroupChoices: set<string> := {"A+", "A-", "B+", "B-", "O+", "O-", "AB+", "AB-"}

  function BloodGroupCode(b: BloodGroup): (code: string)
    ensures code in BloodGroupChoices && |code| <= 3
  {
    match b
    case APos => "A+"
    case ANeg => "A-"
    case BPos => "B+"
    case BNeg => "B-"
    case OPos => "O+"
    case ONeg => "O-"
    case ABPos => "AB+"
    case ABNeg => "AB-"
  }

  function ParseBloodGroup(code: string): (b: Option<BloodGroup>)
    ensures b.Some? <==> code in BloodGroupChoices
    ensures b.Some? ==> BloodGroupCode(b.value) == code
  {
    if code == "A+" then Some(APos)
    else if code == "A-" then Some(ANeg)
    else if code == "B+" then Some(BPos)
    else if code == "B-" then Some(BNeg)
    else if code == "O+" then Some(OPos)
    else if code == "O-" then Some(ONeg)
    else if code == "AB+" then Some(ABPos)
    else if code == "AB-" then Some(ABNeg)
    else None
  }

  lemma BloodGroupRoundTrip(b: BloodGroup)
    ensures ParseBloodGroup(BloodGroupCode(b)) == Some(b)
  {
  }

  // ---------------------------------------------------------------------------
  // User.contact_number: blank, or at most 15 characters matching ^\+?1?\d{9,15}$
  // ---------------------------------------------------------------------------

  const ContactNumberMaxLength: nat := 15

  predicate IsDigit(c: char) {
    '0' <= c <= '9'
  }

  predicate AllDigits(s: string) {
    forall k :: 0 <= k < |s| ==> IsDigit(s[k])
  }

  /** One way of reading s as the pattern: s[..plus] is the optional '+',
      s[plus..one] the optional '1', and s[one..] the 9 to 15 digits. */
  ghost predicate PhoneSplit(s: string, plus: nat, one: nat) {
    && plus <= 1 && plus <= one <= plus + 1 && one <= |s|
    && (plus == 1 ==> s[0] == '+')
    && (one == plus + 1 ==> s[plus] == '1')
    && AllDigits(s[one..])
    && 9 <= |s| - one <= 15
  }

  /** The regular expression ^\+?1?\d{9,15}$ as a set of strings: those with some split. */
  ghost predicate MatchesPhonePattern(s: string) {
    exists plus: nat, one: nat :: PhoneSplit(s, plus, one)
  }

  /** A direct decision procedure for the pattern: drop a leading '+', then the rest
      is all digits, and either 9 to 15 of them or 16 beginning with the optional '1'. */
  function PhonePatternMatch(s: string): (r: bool)
    ensures r ==> 9 <= |s| <= 17 && (s[0] == '+' || IsDigit(s[0]))
    ensures r ==> forall k :: 0 < k < |s| ==> IsDigit(s[k])
  {
    var rest := if |s| > 0 && s[0] == '+' then s[1..] else s;
    AllDigits(rest) && (9 <= |rest| <= 15 || (|rest| == 16 && rest[0] == '1'))
  }

  /** Every string the direct check accepts has a split. */
  lemma PhonePatternMatchSound(s: string)
    requires PhonePatternMatch(s)
    ensures MatchesPhonePattern(s)
  {
    var plus: nat := if |s| > 0 && s[0] == '+' then 1 else 0;
    var rest := s[plus..];
    if 9 <= |rest| <= 15 {
      assert PhoneSplit(s, plus, plus);
    } else {
      assert s[plus + 1..] == rest[1..];
      assert PhoneSplit(s, plus, plus + 1);
    }
  }

  /** Every split describes a string the direct check accepts. */
  lemma PhonePatternMatchComplete(s: string, plus: nat, one: nat)
    requires PhoneSplit(s, plus, one)
    ensures PhonePatternMatch(s)
  {
  }

  lemma PhonePatternMatchCorrect(s: string)
    ensures PhonePatternMatch(s) <==> MatchesPhonePattern(s)
  {
    if PhonePatternMatch(s) {
      PhonePatternMatchSound(s);
    }
    if MatchesPhonePattern(s) {
      var plus: nat, one: nat :| PhoneSplit(s, plus, one);
      PhonePatternMatchComplete(s, plus, one);
    }
  }

  /** The model validator: the column may be blank, which skips the regex;
      otherwise it must fit max_length and match the pattern. */
  function ValidContactNumber(s: string): (r: bool)
    ensures r <==> s == "" || (|s| <= ContactNumberMaxLength && MatchesPhonePattern(s))
  {
    PhonePatternMatchCorrect(s);
    s == "" || (|s| <= ContactNumberMaxLength && PhonePatternMatch(s))
  }

  /** A non-blank valid contact number holds 9 to 15 characters, at most one '+' in front
      and digits elsewhere. */
  lemma ValidContactNumberShape(s: string)
    requires ValidContactNumber(s) && s != ""
    ensures 9 <= |s| <= 15
    ensures forall k :: 0 < k < |s| ==> IsDigit(s[k])
    ensures IsDigit(s[0]) || s[0] == '+'
  {
  }

  // ---------------------------------------------------------------------------
  // Rows
  // ---------------------------------------------------------------------------

  /** What the password column holds: the unusable marker that create_user stores when
      no password is given, the salted hash of a raw password (hashing is kept symbolic),
      or a value assigned to the column directly. */
  datatype PasswordState = Unusable | Hashed(raw: string) | Raw(literal: string)

  datatype User = User(
    username: string,
    email: string,
    firstName: string,
    lastName: string,
    contactNumber: string,
    userType: UserType,
    isSuperuser: bool,
    password: PasswordState)

  datatype Faculty = Faculty(
    user: UserId,
    department: string,
    qualification: string,
    dateJoined: Date)

  datatype Subject = Subject(
    name: string,
    code: string,
    description: string,
    faculty: Option<FacultyId>)

  datatype Student = Student(
    user: UserId,
    profilePic: Option<string>,
    dateOfBirth: Date,
    gender: Gender,
    bloodGroup: BloodGroup,
    address: string,
    enrollmentDate: Date)

  /** Column constraints a stored row satisfies. */
  predicate ValidUser(u: User) {
    ValidContactNumber(u.contactNumber)
  }

  predicate ValidFaculty(f: Faculty) {
    |f.department| <= 100 && |f.qualification| <= 200
  }

  predicate ValidSubject(j: Subject) {
    |j.name| <= 100 && |j.code| <= 20
  }
}
