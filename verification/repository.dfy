/** The repository over the remote document store: seven collections held as
    fields and updated in place. Account creation, clocks, generated document
    ids and the formatted current date are parameters. */
module Repository {
  import opened Common
  import opened Models
  import opened Store
  import opened Ledger

  /** The store's error when updating a document that does not exist. */
  const NoDocumentToUpdate: string := "No document to update"
  const SessionNotFound: string := "Session not found"
  const ClassroomNotFound: string := "Classroom not found"
  const StudentNotFound: string := "Student not found"

  /** A session as `createSession` writes it: active, window open, the WiFi
      identity exactly as passed in. */
  function NewSession(sessionId: string, teacherId: string, subjectId: string, classroomId: string, date: string,
                      startTime: int, endTime: int, wifiSSID: string, wifiBSSID: string, now: int): (s: Session)
    ensures s.id == sessionId && s.teacherId == teacherId && s.subjectId == subjectId && s.classroomId == classroomId
    ensures s.status == Active && s.attendanceWindow
    ensures s.wifiSSID == wifiSSID && s.wifiBSSID == wifiBSSID
    ensures s.startTime == startTime && s.endTime == endTime && s.date == date
  {
    Session(sessionId, teacherId, subjectId, classroomId, date, startTime, endTime, Active, wifiSSID, wifiBSSID, true, now)
  }

  /** The partial update `closeSession` applies: status CLOSED and the window
      shut, every other field kept. */
  function ClosedSession(s: Session): (r: Session)
    ensures r.status == Closed && !r.attendanceWindow
    ensures r.(status := s.status, attendanceWindow := s.attendanceWindow) == s
  {
    s.(status := Closed, attendanceWindow := false)
  }

  /** Closing a session changes its stored document to the closed form and
      removes its index entry; closing it again changes nothing more. */
  lemma CloseSessionEffect(sessions: seq<Doc<Session>>, index: seq<Doc<Session>>, sessionId: string)
    requires HasKey(sessions, sessionId)
    ensures Get(Update(sessions, sessionId, ClosedSession), sessionId) == Some(ClosedSession(Get(sessions, sessionId).value))
    ensures Get(Delete(index, sessionId), sessionId).None?
    ensures Update(Update(sessions, sessionId, ClosedSession), sessionId, ClosedSession) == Update(sessions, sessionId, ClosedSession)
    ensures Delete(Delete(index, sessionId), sessionId) == Delete(index, sessionId)
  {
    GetAfterUpdate(sessions, sessionId, ClosedSession, sessionId);
    var once := Update(sessions, sessionId, ClosedSession);
    var twice := Update(once, sessionId, ClosedSession);
    assert |twice| == |once|;
    forall i | 0 <= i < |once| ensures twice[i] == once[i] {
      if once[i].key == sessionId {
        assert twice[i].data == ClosedSession(once[i].data);
      }
    }
  }

  /** `getClassroomSubjects`' result for a stored classroom: the subject
      document of each listed id that has one, in list order, with the id
      copied in. */
  function ListedSubjects(subjects: seq<Doc<Subject>>, ids: seq<string>): (r: seq<Subject>)
    ensures forall s | s in r :: s.id in ids && HasKey(subjects, s.id) && s == Get(subjects, s.id).value.(id := s.id)
  {
    if ids == [] then []
    else
      var n := |ids| - 1;
      var init := ListedSubjects(subjects, ids[..n]);
      assert ids == ids[..n] + [ids[n]];
      match Get(subjects, ids[n])
      case None => init
      case Some(s) => init + [s.(id := ids[n])]
  }

  /** Exactly one subject per listed id that has a document, in list
      order. */
  lemma {:induction false} ListedSubjectsInOrder(subjects: seq<Doc<Subject>>, ids: seq<string>)
    ensures var r := ListedSubjects(subjects, ids);
      var present := ExistingIds(subjects, ids);
      && |r| == |present|
      && forall k | 0 <= k < |r| :: HasKey(subjects, present[k]) && r[k] == Get(subjects, present[k]).value.(id := present[k])
  {
    if ids != [] {
      var n := |ids| - 1;
      assert ids == ids[..n] + [ids[n]];
      ListedSubjectsInOrder(subjects, ids[..n]);
      ExistingIdsSnoc(subjects, ids[..n], ids[n]);
    }
  }

  /** Each session is stored under its own id, and each entry of the
      active-session index is the session as stored, still active with its
      window open. */
  ghost predicate IndexConsistent(sessions: seq<Doc<Session>>, index: seq<Doc<Session>>) {
    && (forall d | d in sessions :: d.data.id == d.key)
    && (forall d | d in index :: Get(sessions, d.key) == Some(d.data) && d.data.status == Active && d.data.attendanceWindow)
  }

  /** Writing a new active session to both collections keeps the index
      consistent with the sessions. */
  lemma CreateKeepsIndexConsistent(sessions: seq<Doc<Session>>, index: seq<Doc<Session>>, sessionId: string, s: Session)
    requires IndexConsistent(sessions, index) && UniqueKeys(index)
    requires s.id == sessionId && s.status == Active && s.attendanceWindow
    ensures IndexConsistent(Set(sessions, sessionId, s), Set(index, sessionId, s))
  {
    var sessions', index' := Set(sessions, sessionId, s), Set(index, sessionId, s);
    forall d | d in sessions' ensures d.data.id == d.key {
      var i :| 0 <= i < |sessions'| && sessions'[i] == d;
      if i < |sessions| && d.key != sessionId {
        assert d == sessions[i];
      }
    }
    SetKeepsUniqueKeys(index, sessionId, s);
    forall d | d in index'
      ensures Get(sessions', d.key) == Some(d.data) && d.data.status == Active && d.data.attendanceWindow
    {
      GetAfterSet(sessions, sessionId, s, d.key);
      var i :| 0 <= i < |index'| && index'[i] == d;
      if d.key != sessionId {
        assert d == index[i];
      } else {
        GetStored(index', i);
        GetAfterSet(index, sessionId, s, sessionId);
      }
    }
  }

  /** Closing a session keeps the index consistent with the sessions. */
  lemma CloseKeepsIndexConsistent(sessions: seq<Doc<Session>>, index: seq<Doc<Session>>, sessionId: string)
    requires IndexConsistent(sessions, index)
    ensures IndexConsistent(Update(sessions, sessionId, ClosedSession), Delete(index, sessionId))
  {
    var sessions', index' := Update(sessions, sessionId, ClosedSession), Delete(index, sessionId);
    forall d | d in sessions' ensures d.data.id == d.key {
      var i :| 0 <= i < |sessions'| && sessions'[i] == d;
      assert sessions[i] in sessions;
    }
    forall d | d in index'
      ensures Get(sessions', d.key) == Some(d.data) && d.data.status == Active && d.data.attendanceWindow
    {
      assert d in index;
      assert d.key != sessionId by {
        var i :| 0 <= i < |index'| && index'[i] == d;
      }
      GetAfterUpdate(sessions, sessionId, ClosedSession, d.key);
    }
  }

  /** The remote store the app works against. */
  class FirebaseRepository {
    var teachers: seq<Doc<Teacher>>
    var students: seq<Doc<Student>>
    var classrooms: seq<Doc<Classroom>>
    var subjects: seq<Doc<Subject>>
    var sessions: seq<Doc<Session>>
    var activeSessions: seq<Doc<Session>>
    var attendance: seq<Attendance>

    /** Ids are unique in every keyed collection and the active-session
        index is consistent with the sessions. */
    ghost predicate Valid()
      reads this
    {
      && UniqueKeys(teachers) && UniqueKeys(students) && UniqueKeys(classrooms) && UniqueKeys(subjects)
      && UniqueKeys(sessions) && UniqueKeys(activeSessions)
      && IndexConsistent(sessions, activeSessions)
    }

    constructor()
      ensures Valid()
      ensures teachers == [] && students == [] && classrooms == [] && subjects == []
      ensures sessions == [] && activeSessions == [] && attendance == []
    {
      teachers, students, classrooms, subjects := [], [], [], [];
      sessions, activeSessions, attendance := [], [], [];
    }

    /** `createSession`: writes one session, under the generated id, to both
        the sessions collection and the active-session index. */
    method CreateSession(teacherId: string, subjectId: string, classroomId: string, startTime: int, endTime: int,
                         wifiSSID: string, wifiBSSID: string, sessionId: string, today: string, now: int)
      returns (r: Result<string>)
      requires Valid()
      modifies this
      ensures Valid()
      ensures r == Success(sessionId)
      ensures var s := NewSession(sessionId, teacherId, subjectId, classroomId, today, startTime, endTime, wifiSSID, wifiBSSID, now);
        && sessions == Set(old(sessions), sessionId, s)
        && activeSessions == Set(old(activeSessions), sessionId, s)
        && Get(sessions, sessionId) == Some(s) && Get(activeSessions, sessionId) == Some(s)
      ensures teachers == old(teachers) && students == old(students) && classrooms == old(classrooms)
      ensures subjects == old(subjects) && attendance == old(attendance)
    {
      var s := NewSession(sessionId, teacherId, subjectId, classroomId, today, startTime, endTime, wifiSSID, wifiBSSID, now);
      SetKeepsUniqueKeys(sessions, sessionId, s);
      SetKeepsUniqueKeys(activeSessions, sessionId, s);
      CreateKeepsIndexConsistent(sessions, activeSessions, sessionId, s);
      GetAfterSet(sessions, sessionId, s, sessionId);
      GetAfterSet(activeSessions, sessionId, s, sessionId);
      sessions := Set(sessions, sessionId, s);
      activeSessions := Set(activeSessions, sessionId, s);
      r := Success(sessionId);
    }

    /** `closeSession`: the partial update of the stored session, then the
        removal of its index entry. Updating a missing session fails before
        anything is written. */
    method CloseSession(sessionId: string) returns (o: Outcome)
      requires Valid()
      modifies this
      ensures Valid()
      ensures !HasKey(old(sessions), sessionId) ==>
        o == Fail(NoDocumentToUpdate) && sessions == old(sessions) && activeSessions == old(activeSessions)
      ensures HasKey(old(sessions), sessionId) ==>
        && o == Pass
        && sessions == Update(old(sessions), sessionId, ClosedSession)
        && activeSessions == Delete(old(activeSessions), sessionId)
      ensures teachers == old(teachers) && students == old(students) && classrooms == old(classrooms)
      ensures subjects == old(subjects) && attendance == old(attendance)
    {
      if !HasKey(sessions, sessionId) {
        return Fail(NoDocumentToUpdate);
      }
      DeleteKeepsUniqueKeys(activeSessions, sessionId);
      CloseKeepsIndexConsistent(sessions, activeSessions, sessionId);
      sessions := Update(sessions, sessionId, ClosedSession);
      activeSessions := Delete(activeSessions, sessionId);
      o := Pass;
    }

    /** `getSession`: the stored session under its document id. */
    method GetSession(sessionId: string) returns (r: Result<Session>)
      ensures Get(sessions, sessionId).None? ==> r == Failure(SessionNotFound)
      ensures Get(sessions, sessionId).Some? ==>
        && r.Success? && r.value.id == sessionId
        && r.value == Get(sessions, sessionId).value.(id := sessionId)
    {
      match Get(sessions, sessionId)
      case None => r := Failure(SessionNotFound);
      case Some(s) => r := Success(s.(id := sessionId));
    }

    /** `getClassroomSubjects`: a missing classroom document is an error;
        otherwise each listed subject id is looked up in turn and the
        documents found are collected. */
    method GetClassroomSubjects(classroomId: string) returns (r: Result<seq<Subject>>)
      ensures Get(classrooms, classroomId).None? ==> r == Failure(ClassroomNotFound)
      ensures Get(classrooms, classroomId).Some? ==>
        r == Success(ListedSubjects(subjects, Get(classrooms, classroomId).value.subjects))
    {
      var classroom := Get(classrooms, classroomId);
      if classroom.None? {
        return Failure(ClassroomNotFound);
      }
      var ids := classroom.value.subjects;
      var found: seq<Subject> := [];
      var i := 0;
      while i < |ids|
        invariant 0 <= i <= |ids|
        invariant found == ListedSubjects(subjects, ids[..i])
      {
        assert ids[..i + 1][..i] == ids[..i];
        var subject := Get(subjects, ids[i]);
        if subject.Some? {
          found := found + [subject.value.(id := ids[i])];
        }
        i := i + 1;
      }
      assert ids[..i] == ids;
      r := Success(found);
    }

    /** `getSessionAttendance`: for each roster student of the session's
        classroom whose document exists, the student and the record shown for
        them. */
    method GetSessionAttendance(sessionId: string) returns (r: Result<seq<(Student, Attendance)>>)
      ensures Get(sessions, sessionId).None? ==> r == Failure(SessionNotFound)
      ensures Get(sessions, sessionId).Some? && Get(classrooms, Get(sessions, sessionId).value.classroomId).None?
        ==> r == Failure(ClassroomNotFound)
      ensures Get(sessions, sessionId).Some? && Get(classrooms, Get(sessions, sessionId).value.classroomId).Some?
        ==> r == Success(SessionRows(students, attendance,
                           Get(classrooms, Get(sessions, sessionId).value.classroomId).value.students, sessionId))
    {
      var session := Get(sessions, sessionId);
      if session.None? {
        return Failure(SessionNotFound);
      }
      var classroom := Get(classrooms, session.value.classroomId);
      if classroom.None? {
        return Failure(ClassroomNotFound);
      }
      var roster := classroom.value.students;
      var rows: seq<(Student, Attendance)> := [];
      var i := 0;
      while i < |roster|
        invariant 0 <= i <= |roster|
        invariant rows == SessionRows(students, attendance, roster[..i], sessionId)
      {
        var studentId := roster[i];
        var student := Get(students, studentId);
        var record := RecordOrAbsent(attendance, sessionId, studentId);
        SessionRowsStep(students, attendance, roster, sessionId, i);
        if student.Some? {
          rows := rows + [(student.value.(id := studentId), record)];
        }
        i := i + 1;
      }
      assert roster[..i] == roster;
      r := Success(rows);
    }

    /** `overrideAttendance`: find-first-or-insert on the attendance
        collection; nothing else is written. */
    method OverrideAttendance(sessionId: string, studentId: string, newStatus: AttendanceStatus, teacherId: string, now: int)
      returns (o: Outcome)
      requires Valid()
      modifies this
      ensures Valid()
      ensures o == Pass
      ensures attendance == Override(old(attendance), sessionId, studentId, newStatus, teacherId, now)
      ensures teachers == old(teachers) && students == old(students) && classrooms == old(classrooms)
      ensures subjects == old(subjects) && sessions == old(sessions) && activeSessions == old(activeSessions)
    {
      attendance := Override(attendance, sessionId, studentId, newStatus, teacherId, now);
      o := Pass;
    }

    /** `markAttendance`: appends one present record written by the student,
        without reading the collection. */
    method MarkAttendance(sessionId: string, studentId: string, selfieBase64: string, verificationScore: real, now: int)
      returns (o: Outcome)
      requires Valid()
      modifies this
      ensures Valid()
      ensures o == Pass
      ensures attendance == old(attendance) + [StudentRecord(sessionId, studentId, selfieBase64, verificationScore, now)]
      ensures teachers == old(teachers) && students == old(students) && classrooms == old(classrooms)
      ensures subjects == old(subjects) && sessions == old(sessions) && activeSessions == old(activeSessions)
    {
      attendance := attendance + [StudentRecord(sessionId, studentId, selfieBase64, verificationScore, now)];
      o := Pass;
    }

    /** `getActiveSessionsForStudent`: the index entries in the student's
        classrooms with an open window, with names looked up. */
    method GetActiveSessionsForStudent(studentId: string) returns (r: Result<seq<ActiveSession>>)
      ensures Get(students, studentId).None? ==> r == Failure(StudentNotFound)
      ensures Get(students, studentId).Some? ==>
        r == Success(OfferedSessions(activeSessions, Get(students, studentId).value.classrooms, subjects, teachers, classrooms))
    {
      var student := Get(students, studentId);
      if student.None? {
        return Failure(StudentNotFound);
      }
      var classroomIds := student.value.classrooms;
      var offered: seq<ActiveSession> := [];
      var i := 0;
      while i < |activeSessions|
        invariant 0 <= i <= |activeSessions|
        invariant offered == OfferedSessions(activeSessions[..i], classroomIds, subjects, teachers, classrooms)
      {
        var session := activeSessions[i].data;
        assert activeSessions[..i + 1][..i] == activeSessions[..i];
        if session.classroomId in classroomIds && session.attendanceWindow {
          offered := offered + [ActiveSession(session.id, SubjectNameOrEmpty(subjects, session.subjectId),
            TeacherNameOrEmpty(teachers, session.teacherId), ClassroomNameOrEmpty(classrooms, session.classroomId),
            session.startTime, session.endTime)];
        }
        i := i + 1;
      }
      assert activeSessions[..i] == activeSessions;
      r := Success(offered);
    }

    /** `getAttendanceCountForSubject`: sessions held for the subject, and
        those with a present record for the student. */
    method GetAttendanceCountForSubject(studentId: string, subjectId: string) returns (total: nat, attended: nat)
      ensures total == SessionsOfSubject(sessions, subjectId)
      ensures attended == AttendedSessions(sessions, attendance, subjectId, studentId)
      ensures attended <= total
    {
      total, attended := 0, 0;
      var i := 0;
      while i < |sessions|
        invariant 0 <= i <= |sessions|
        invariant total == SessionsOfSubject(sessions[..i], subjectId)
        invariant attended == AttendedSessions(sessions[..i], attendance, subjectId, studentId)
      {
        var session := sessions[i].data;
        assert sessions[..i + 1][..i] == sessions[..i];
        if session.subjectId == subjectId {
          total := total + 1;
          if HasPresentRecord(attendance, session.id, studentId) {
            attended := attended + 1;
          }
        }
        i := i + 1;
      }
      assert sessions[..i] == sessions;
    }

    /** `getStudentSubjects`: for each of the student's classrooms that exists,
        for each of its subjects that exists, the student's standing. */
    method GetStudentSubjects(studentId: string) returns (r: Result<seq<SubjectAttendance>>)
      ensures Get(students, studentId).None? ==> r == Failure(StudentNotFound)
      ensures Get(students, studentId).Some? ==>
        r == Success(StudentSubjectRows(classrooms, subjects, sessions, attendance, studentId,
                                        Get(students, studentId).value.classrooms))
    {
      var student := Get(students, studentId);
      if student.None? {
        return Failure(StudentNotFound);
      }
      var classroomIds := student.value.classrooms;
      var rows: seq<SubjectAttendance> := [];
      var i := 0;
      while i < |classroomIds|
        invariant 0 <= i <= |classroomIds|
        invariant rows == StudentSubjectRows(classrooms, subjects, sessions, attendance, studentId, classroomIds[..i])
      {
        assert classroomIds[..i + 1][..i] == classroomIds[..i];
        var classroom := Get(classrooms, classroomIds[i]);
        if classroom.Some? {
          var more := ClassroomSubjects(studentId, classroom.value.subjects);
          rows := rows + more;
        }
        i := i + 1;
      }
      assert classroomIds[..i] == classroomIds;
      r := Success(rows);
    }

    /** The inner loop of `getStudentSubjects`: one classroom's subjects, in
        order, skipping those whose document is missing. */
    method ClassroomSubjects(studentId: string, subjectIds: seq<string>) returns (rows: seq<SubjectAttendance>)
      ensures rows == ClassroomSubjectRows(subjects, sessions, attendance, studentId, subjectIds)
    {
      rows := [];
      var j := 0;
      while j < |subjectIds|
        invariant 0 <= j <= |subjectIds|
        invariant rows == ClassroomSubjectRows(subjects, sessions, attendance, studentId, subjectIds[..j])
      {
        assert subjectIds[..j + 1][..j] == subjectIds[..j];
        var subject := Get(subjects, subjectIds[j]);
        if subject.Some? {
          var total, attended := GetAttendanceCountForSubject(studentId, subjectIds[j]);
          var row := SubjectAttendance(subjectIds[j], subject.value.name, subject.value.code,
                                       total, attended, Percentage(attended, total));
          rows := rows + [row];
        }
        j := j + 1;
      }
      assert subjectIds[..j] == subjectIds;
    }

    /** `registerTeacher`: once the account exists, the profile is stored
        under the account id. A failed account creation writes nothing. */
    method RegisterTeacher(account: Result<string>, teacher: Teacher) returns (r: Result<string>)
      requires Valid()
      modifies this
      ensures Valid()
      ensures account.Failure? ==> r == account && teachers == old(teachers)
      ensures account.Success? ==>
        && r == account
        && teachers == Set(old(teachers), account.value, teacher.(id := account.value))
        && Get(teachers, account.value) == Some(teacher.(id := account.value))
      ensures students == old(students) && classrooms == old(classrooms) && subjects == old(subjects)
      ensures sessions == old(sessions) && activeSessions == old(activeSessions) && attendance == old(attendance)
    {
      if account.Failure? {
        return account;
      }
      var uid := account.value;
      SetKeepsUniqueKeys(teachers, uid, teacher.(id := uid));
      GetAfterSet(teachers, uid, teacher.(id := uid), uid);
      teachers := Set(teachers, uid, teacher.(id := uid));
      r := Success(uid);
    }

    /** `registerStudent`: once the account exists, the profile is stored
        under the account id. A failed account creation writes nothing. */
    method RegisterStudent(account: Result<string>, student: Student) returns (r: Result<string>)
      requires Valid()
      modifies this
      ensures Valid()
      ensures account.Failure? ==> r == account && students == old(students)
      ensures account.Success? ==>
        && r == account
        && students == Set(old(students), account.value, student.(id := account.value))
        && Get(students, account.value) == Some(student.(id := account.value))
      ensures teachers == old(teachers) && classrooms == old(classrooms) && subjects == old(subjects)
      ensures sessions == old(sessions) && activeSessions == old(activeSessions) && attendance == old(attendance)
    {
      if account.Failure? {
        return account;
      }
      var uid := account.value;
      SetKeepsUniqueKeys(students, uid, student.(id := uid));
      GetAfterSet(students, uid, student.(id := uid), uid);
      students := Set(students, uid, student.(id := uid));
      r := Success(uid);
    }
  }
}
