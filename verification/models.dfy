/** The records the app stores and shows: sessions, attendance, classrooms,
    people and subjects, the per-screen views built from them, and the face
    service's answers. Times are epoch milliseconds as unbounded integers;
    confidences and percentages are reals. */
module Models {
  import opened Common

  /** Whether a session is still running. Stored under its name. */
  datatype SessionStatus = Active | Closed {
    function Name(): string {
      match this
      case Active => "ACTIVE"
      case Closed => "CLOSED"
    }
  }

  /** A student's standing in one session. Stored under its name. */
  datatype AttendanceStatus = Present | Absent {
    function Name(): string {
      match this
      case Present => "PRESENT"
      case Absent => "ABSENT"
    }
  }

  /** Who wrote an attendance record. Stored under its name. */
  datatype MarkedBy = ByStudent | ByTeacher {
    function Name(): string {
      match this
      case ByStudent => "STUDENT"
      case ByTeacher => "TEACHER"
    }
  }

  datatype Session = Session(
    id: string,
    teacherId: string,
    subjectId: string,
    classroomId: string,
    date: string,
    startTime: int,
    endTime: int,
    status: SessionStatus,
    wifiSSID: string,
    wifiBSSID: string,
    attendanceWindow: bool,
    createdAt: int)

  /** One attendance document. `selfieBase64` and `verificationScore` are only
      written by the repository's own mark operation; the record type of the
      app does not declare them, so they are optional here. */
  datatype Attendance = Attendance(
    id: string,
    sessionId: string,
    studentId: string,
    classroomId: string,
    subjectId: string,
    subjectName: string,
    status: AttendanceStatus,
    markedAt: int,
    markedBy: MarkedBy,
    selfieUrl: string,
    overriddenBy: string,
    selfieBase64: Option<string>,
    verificationScore: Option<real>)

  datatype Classroom = Classroom(
    id: string,
    name: string,
    wifiSSID: string,
    wifiBSSID: string,
    teachers: seq<string>,
    students: seq<string>,
    subjects: seq<string>,
    createdAt: int)

  datatype Student = Student(
    id: string,
    name: string,
    email: string,
    phone: string,
    rollNumber: string,
    classrooms: seq<string>,
    faceEncoding: string,
    createdAt: int)

  datatype Subject = Subject(
    id: string,
    name: string,
    code: string,
    classroomId: string,
    teacherId: string,
    createdAt: int)

  datatype Teacher = Teacher(
    id: string,
    name: string,
    email: string,
    phone: string,
    classrooms: seq<string>,
    createdAt: int)

  /** A running session as a student's list shows it. */
  datatype ActiveSession = ActiveSession(
    sessionId: string,
    subjectName: string,
    teacherName: string,
    classroomName: string,
    startTime: int,
    endTime: int)

  /** One row of an attendance history. */
  datatype AttendanceRecord = AttendanceRecord(
    sessionId: string,
    subjectName: string,
    date: string,
    startTime: int,
    endTime: int,
    status: AttendanceStatus,
    markedAt: int,
    selfieUrl: string)

  /** A student's standing in one subject. */
  datatype SubjectAttendance = SubjectAttendance(
    subjectId: string,
    subjectName: string,
    subjectCode: string,
    totalClasses: nat,
    attendedClasses: nat,
    attendancePercentage: real)

  /** The face service's answer to a recognition request: its `label` (a
      student id, or "unknown" / "no_face") with a confidence between 0 and
      1. */
  datatype PredictResponse = PredictResponse(predictedLabel: string, confidence: real)

  /** The face service's answer to an encoding request. */
  datatype FaceEncodingResponse = FaceEncodingResponse(encoding: string, success: bool, message: string)

  /** `AttendanceStatus.valueOf(name)`: the status with that exact name, or
      nothing where the platform throws. */
  function AttendanceStatusValueOf(name: string): (r: Option<AttendanceStatus>)
    ensures r.Some? <==> name == "PRESENT" || name == "ABSENT"
    ensures r.Some? ==> r.value.Name() == name
  {
    if name == "PRESENT" then Some(Present)
    else if name == "ABSENT" then Some(Absent)
    else None
  }

  /** `SessionStatus.valueOf(name)`. */
  function SessionStatusValueOf(name: string): (r: Option<SessionStatus>)
    ensures r.Some? <==> name == "ACTIVE" || name == "CLOSED"
    ensures r.Some? ==> r.value.Name() == name
  {
    if name == "ACTIVE" then Some(Active)
    else if name == "CLOSED" then Some(Closed)
    else None
  }

  /** How the history screens read a stored status string: a missing field
      reads as "ABSENT", and a name that is not a status falls back to
      absent. */
  function ParseAttendanceStatus(raw: Option<string>): (r: AttendanceStatus)
    ensures r == Present <==> raw == Some("PRESENT")
  {
    var name := if raw.Some? then raw.value else "ABSENT";
    match AttendanceStatusValueOf(name)
    case Some(s) => s
    case None => Absent
  }

  /** Reading back the name a status was stored under gives that status. */
  lemma ParseAttendanceStatusRoundTrip(s: AttendanceStatus)
    ensures ParseAttendanceStatus(Some(s.Name())) == s
  {
  }

  /** The synthetic record used for a student with no attendance document:
      absent, everything else at its default. */
  function AbsentDefault(sessionId: string, studentId: string): (r: Attendance)
    ensures r.sessionId == sessionId && r.studentId == studentId
    ensures r.status == Absent && r.markedAt == 0 && r.markedBy == ByStudent
    ensures r.selfieUrl == "" && r.overriddenBy == ""
  {
    Attendance("", sessionId, studentId, "", "", "", Absent, 0, ByStudent, "", "", None, None)
  }

  /** `attended / total * 100`, or 0 when there is nothing to count. */
  function Percentage(attended: nat, total: nat): (p: real)
    requires attended <= total
    ensures 0.0 <= p <= 100.0
    ensures total == 0 ==> p == 0.0
    ensures total > 0 ==> p * (total as real) == (attended as real) * 100.0
    ensures p == 100.0 <==> total > 0 && attended == total
    ensures p == 0.0 <==> attended == 0
  {
    if total > 0 then (attended as real) / (total as real) * 100.0 else 0.0
  }

  /** `Float.toInt()`: rounds toward zero. */
  function TruncateToInt(x: real): (n: int)
    ensures 0.0 <= x ==> n as real <= x < n as real + 1.0
    ensures x < 0.0 ==> n as real - 1.0 < x <= n as real
  {
    if x >= 0.0 then x.Floor else -((-x).Floor)
  }
}
