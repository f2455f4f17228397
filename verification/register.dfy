/** The registration form, for a teacher or a student: the fields are
    trimmed and checked in a fixed order; a student must also give a roll
    number and a photo, whose face encoding is obtained before the account is
    created. Account creation and the face service are inputs (their
    answers); the photo is an opaque string. */
module Register {
  import opened Common
  import opened Models
  import opened Strings
  import opened Store
  import Repository
  import Login

  const NameRequired: string := "Name is required"
  const EmailRequired: string := "Email is required"
  const PhoneRequired: string := "Phone is required"
  const RollRequired: string := "Roll number is required"
  const PhotoRequired: string := "Please capture your photo"
  const PasswordsDiffer: string := "Passwords do not match"
  const RegistrationFailedPrefix: string := "Registration failed: "
  const EncodingFailedPrefix: string := "Face encoding failed: "
  const EncodingErrorPrefix: string := "Face encoding error: "

  /** The text typed into the form, untrimmed. */
  datatype RegisterForm = RegisterForm(
    name: string,
    email: string,
    phone: string,
    rollNumber: string,
    password: string,
    confirmPassword: string)

  /** The form as `validateInput` and `register` read it: every field
      trimmed. */
  function Trimmed(form: RegisterForm): RegisterForm {
    RegisterForm(Trim(form.name), Trim(form.email), Trim(form.phone), Trim(form.rollNumber),
                 Trim(form.password), Trim(form.confirmPassword))
  }

  /** What a complete registration needs, on trimmed fields. */
  predicate Complete(t: RegisterForm, isTeacher: bool, hasPhoto: bool) {
    && t.name != [] && t.email != [] && t.phone != []
    && (!isTeacher ==> t.rollNumber != [] && hasPhoto)
    && |t.password| >= Login.MinPasswordLength
    && t.password == t.confirmPassword
  }

  /** The checks of `validateInput` on the trimmed fields: name, email,
      phone, then (students only) roll number and photo, then password
      length, then the confirmation; the first failure names the error. */
  function CheckForm(t: RegisterForm, isTeacher: bool, hasPhoto: bool): (o: Outcome)
    ensures o == Pass <==> Complete(t, isTeacher, hasPhoto)
    ensures o.Fail? ==> o.error in {NameRequired, EmailRequired, PhoneRequired, RollRequired, PhotoRequired,
                                    Login.PasswordTooShort, PasswordsDiffer}
  {
    if t.name == [] then Fail(NameRequired)
    else if t.email == [] then Fail(EmailRequired)
    else if t.phone == [] then Fail(PhoneRequired)
    else if !isTeacher && t.rollNumber == [] then Fail(RollRequired)
    else if !isTeacher && !hasPhoto then Fail(PhotoRequired)
    else if t.password == [] || |t.password| < Login.MinPasswordLength then Fail(Login.PasswordTooShort)
    else if t.password != t.confirmPassword then Fail(PasswordsDiffer)
    else Pass
  }

  /** `validateInput`: the checks on the trimmed form. */
  function ValidateRegistration(form: RegisterForm, isTeacher: bool, hasPhoto: bool): (o: Outcome)
    ensures o == Pass <==> Complete(Trimmed(form), isTeacher, hasPhoto)
    ensures o == Pass ==> |Trim(form.password)| >= Login.MinPasswordLength && Trim(form.password) == Trim(form.confirmPassword)
  {
    CheckForm(Trimmed(form), isTeacher, hasPhoto)
  }

  /** The first failing check decides, in the order name, email, phone, roll
      number, photo, password, confirmation. */
  lemma RegistrationErrorsInOrder(t: RegisterForm, isTeacher: bool, hasPhoto: bool)
    ensures var o := CheckForm(t, isTeacher, hasPhoto);
      && (t.name == [] ==> o == Fail(NameRequired))
      && (t.name != [] && t.email == [] ==> o == Fail(EmailRequired))
      && (t.name != [] && t.email != [] && t.phone == [] ==> o == Fail(PhoneRequired))
      && (t.name != [] && t.email != [] && t.phone != [] && !isTeacher ==>
            && (t.rollNumber == [] ==> o == Fail(RollRequired))
            && (t.rollNumber != [] && !hasPhoto ==> o == Fail(PhotoRequired)))
      && (t.name != [] && t.email != [] && t.phone != [] && (!isTeacher ==> t.rollNumber != [] && hasPhoto) ==>
            && (|t.password| < Login.MinPasswordLength ==> o == Fail(Login.PasswordTooShort))
            && (|t.password| >= Login.MinPasswordLength && t.password != t.confirmPassword ==> o == Fail(PasswordsDiffer)))
  {
  }

  /** A teacher is never asked for a roll number or a photo. */
  lemma TeacherNeedsNoRollOrPhoto(t: RegisterForm, roll: string, hasPhoto: bool)
    ensures CheckForm(t.(rollNumber := roll), true, hasPhoto) == CheckForm(t, true, false)
  {
  }

  /** Whitespace around the password and its confirmation does not count:
      a padded pair passes exactly when the bare pair does. */
  lemma PasswordJudgedTrimmed(form: RegisterForm, isTeacher: bool, hasPhoto: bool)
    ensures ValidateRegistration(form.(password := Trim(form.password), confirmPassword := Trim(form.confirmPassword)),
                                 isTeacher, hasPhoto)
         == ValidateRegistration(form, isTeacher, hasPhoto)
  {
    TrimIdempotent(form.password);
    TrimIdempotent(form.confirmPassword);
    assert Trimmed(form.(password := Trim(form.password), confirmPassword := Trim(form.confirmPassword)))
        == Trimmed(form);
  }

  /** The teacher profile `register` builds from the trimmed form `f`: its
      name, email and phone, and no classrooms. */
  function NewTeacher(f: RegisterForm, now: int): (t: Teacher)
    ensures t.name == f.name && t.email == f.email && t.phone == f.phone
    ensures t.classrooms == [] && t.id == ""
  {
    Teacher("", f.name, f.email, f.phone, [], now)
  }

  /** The student profile `registerStudent` builds from the trimmed form
      `f`: its fields, the encoding the face service returned and no
      classrooms. */
  function NewStudent(f: RegisterForm, encoding: string, now: int): (s: Student)
    ensures s.name == f.name && s.email == f.email && s.phone == f.phone
    ensures s.rollNumber == f.rollNumber && s.faceEncoding == encoding
    ensures s.classrooms == [] && s.id == ""
  {
    Student("", f.name, f.email, f.phone, f.rollNumber, [], encoding, now)
  }

  class RegisterScreen {
    var isTeacher: bool
    /** The photo taken for a student, if any. */
    var captured: Option<string>

    constructor(isTeacher: bool)
      ensures this.isTeacher == isTeacher && captured.None?
    {
      this.isTeacher := isTeacher;
      captured := None;
    }

    method CapturePhoto(image: string)
      modifies this
      ensures captured == Some(image) && isTeacher == old(isTeacher)
    {
      captured := Some(image);
    }

    method RetakePhoto()
      modifies this
      ensures captured.None? && isTeacher == old(isTeacher)
    {
      captured := None;
    }

    /** `register`: the fields are read trimmed and handed on; see
        `RegisterTrimmed`. */
    method Register(repo: Repository.FirebaseRepository, form: RegisterForm, encoding: Result<FaceEncodingResponse>,
                    account: Result<string>, now: int)
      returns (o: Outcome)
      requires repo.Valid()
      modifies repo
      ensures repo.Valid()
      ensures Registered(Trimmed(form), isTeacher, captured.Some?, encoding, account, now, o,
                         old(repo.teachers), old(repo.students), repo)
      ensures repo.classrooms == old(repo.classrooms) && repo.subjects == old(repo.subjects)
      ensures repo.sessions == old(repo.sessions) && repo.activeSessions == old(repo.activeSessions)
      ensures repo.attendance == old(repo.attendance)
    {
      o := RegisterTrimmed(repo, Trimmed(form), encoding, account, now);
    }

    /** `register` on the trimmed fields `t`: nothing happens unless they
        pass `validateInput`'s checks; a teacher's profile is stored once the
        account exists (`account` is the identity service's answer); a
        student goes on to `registerStudent`. */
    method RegisterTrimmed(repo: Repository.FirebaseRepository, t: RegisterForm, encoding: Result<FaceEncodingResponse>,
                           account: Result<string>, now: int)
      returns (o: Outcome)
      requires repo.Valid()
      modifies repo
      ensures repo.Valid()
      ensures Registered(t, isTeacher, captured.Some?, encoding, account, now, o, old(repo.teachers), old(repo.students), repo)
      ensures repo.classrooms == old(repo.classrooms) && repo.subjects == old(repo.subjects)
      ensures repo.sessions == old(repo.sessions) && repo.activeSessions == old(repo.activeSessions)
      ensures repo.attendance == old(repo.attendance)
    {
      o := CheckForm(t, isTeacher, captured.Some?);
      if o.Fail? {
        return;
      }
      if isTeacher {
        o := RegisterTeacher(repo, t, account, now);
      } else {
        o := RegisterStudent(repo, t, encoding, account, now);
      }
    }
  }

  /** What `register` leaves behind, from the trimmed fields `t` and the
      profiles stored before: a failed check is reported and stores nothing;
      a teacher's profile is stored under the new account's id; a student's
      as `registerStudent` decides. */
  ghost predicate Registered(t: RegisterForm, isTeacher: bool, hasPhoto: bool, encoding: Result<FaceEncodingResponse>,
                             account: Result<string>, now: int, o: Outcome,
                             teachers: seq<Doc<Teacher>>, students: seq<Doc<Student>>, repo: Repository.FirebaseRepository)
    reads repo
  {
    var check := CheckForm(t, isTeacher, hasPhoto);
    && (check.Fail? ==> o == check && repo.teachers == teachers && repo.students == students)
    && (check == Pass && isTeacher ==>
          && repo.students == students
          && (account.Failure? ==> o == Fail(RegistrationFailedPrefix + account.error) && repo.teachers == teachers)
          && (account.Success? ==>
                o == Pass && repo.teachers == Set(teachers, account.value, NewTeacher(t, now).(id := account.value))))
    && (check == Pass && !isTeacher ==>
          && repo.teachers == teachers
          && o == StudentOutcome(encoding, account)
          && repo.students == (if StudentCreated(encoding, account) then
                                 Set(students, account.value, NewStudent(t, encoding.value.encoding, now).(id := account.value))
                               else students))
  }

  /** The teacher branch of `register`: the profile is stored under the new
      account's id once the account exists. */
  method RegisterTeacher(repo: Repository.FirebaseRepository, f: RegisterForm, account: Result<string>, now: int)
    returns (o: Outcome)
    requires repo.Valid()
    modifies repo
    ensures repo.Valid()
    ensures account.Failure? ==> o == Fail(RegistrationFailedPrefix + account.error) && repo.teachers == old(repo.teachers)
    ensures account.Success? ==>
      o == Pass && repo.teachers == Set(old(repo.teachers), account.value, NewTeacher(f, now).(id := account.value))
    ensures repo.students == old(repo.students) && repo.classrooms == old(repo.classrooms)
    ensures repo.subjects == old(repo.subjects) && repo.sessions == old(repo.sessions)
    ensures repo.activeSessions == old(repo.activeSessions) && repo.attendance == old(repo.attendance)
  {
    var r := repo.RegisterTeacher(account, NewTeacher(f, now));
    o := if r.Success? then Pass else Fail(RegistrationFailedPrefix + r.error);
  }

  /** Whether `registerStudent` reaches a stored profile: the face service
      answered, reported success, and the account was created. */
  predicate StudentCreated(encoding: Result<FaceEncodingResponse>, account: Result<string>) {
    encoding.Success? && encoding.value.success && account.Success?
  }

  /** What `registerStudent` reports, by the face service's and the identity
      service's answers; the encoding is asked for first. */
  function StudentOutcome(encoding: Result<FaceEncodingResponse>, account: Result<string>): (o: Outcome)
    ensures o == Pass <==> StudentCreated(encoding, account)
    ensures encoding.Failure? ==> o == Fail(EncodingErrorPrefix + encoding.error)
    ensures encoding.Success? && !encoding.value.success ==> o == Fail(EncodingFailedPrefix + encoding.value.message)
  {
    if encoding.Failure? then Fail(EncodingErrorPrefix + encoding.error)
    else if !encoding.value.success then Fail(EncodingFailedPrefix + encoding.value.message)
    else if account.Failure? then Fail(RegistrationFailedPrefix + account.error)
    else Pass
  }

  /** `registerStudent`: the photo's encoding first; only a successful
      encoding leads to account creation and a stored profile carrying that
      encoding. */
  method RegisterStudent(repo: Repository.FirebaseRepository, f: RegisterForm, encoding: Result<FaceEncodingResponse>,
                         account: Result<string>, now: int)
    returns (o: Outcome)
    requires repo.Valid()
    modifies repo
    ensures repo.Valid()
    ensures o == StudentOutcome(encoding, account)
    ensures StudentCreated(encoding, account) ==>
      repo.students == Set(old(repo.students), account.value, NewStudent(f, encoding.value.encoding, now).(id := account.value))
    ensures !StudentCreated(encoding, account) ==> repo.students == old(repo.students)
    ensures repo.teachers == old(repo.teachers) && repo.classrooms == old(repo.classrooms)
    ensures repo.subjects == old(repo.subjects) && repo.sessions == old(repo.sessions)
    ensures repo.activeSessions == old(repo.activeSessions) && repo.attendance == old(repo.attendance)
  {
    if encoding.Failure? {
      return Fail(EncodingErrorPrefix + encoding.error);
    }
    var response := encoding.value;
    if !response.success {
      return Fail(EncodingFailedPrefix + response.message);
    }
    var r := repo.RegisterStudent(account, NewStudent(f, response.encoding, now));
    o := if r.Success? then Pass else Fail(RegistrationFailedPrefix + r.error);
  }

  /** A stored student profile always passed the student checks: it has a
      name, an email, a phone and a roll number, no classrooms, and the
      encoding of a successful face-service answer. */
  lemma RegisteredStudentIsComplete(form: RegisterForm, response: FaceEncodingResponse, uid: string, now: int)
    requires ValidateRegistration(form, false, true) == Pass
    ensures var s := NewStudent(Trimmed(form), response.encoding, now).(id := uid);
      && s.id == uid && s.name != [] && s.email != [] && s.phone != [] && s.rollNumber != []
      && s.classrooms == [] && s.faceEncoding == response.encoding
  {
  }
}
