/** The attendance ledger as values: which attendance document a query for a
    (session, student) pair finds, how a teacher's override rewrites the
    ledger, and the per-roster, per-student and per-subject views the
    repository builds from the collections. The repository's methods are
    specified by these functions. */
module Ledger {
  import opened Common
  import opened Models
  import opened Store

  /** The attendance document is about this student in this session. */
  predicate IsRecordOf(a: Attendance, sessionId: string, studentId: string) {
    a.sessionId == sessionId && a.studentId == studentId
  }

  /** Position of the first document for the pair, in store order: what a
      query filtered on both ids and limited to one document returns. */
  function FirstRecordIndex(att: seq<Attendance>, sessionId: string, studentId: string): (r: Option<nat>)
    ensures r.Some? ==> r.value < |att| && IsRecordOf(att[r.value], sessionId, studentId)
    ensures r.Some? ==> forall j | 0 <= j < r.value :: !IsRecordOf(att[j], sessionId, studentId)
    ensures r.None? <==> forall j | 0 <= j < |att| :: !IsRecordOf(att[j], sessionId, studentId)
  {
    if att == [] then None
    else if IsRecordOf(att[0], sessionId, studentId) then Some(0)
    else match FirstRecordIndex(att[1..], sessionId, studentId)
      case None => None
      case Some(k) => Some(k + 1)
  }

  /** The record shown for a student in a session: the first document for the
      pair, or a synthetic absent record when there is none. */
  function RecordOrAbsent(att: seq<Attendance>, sessionId: string, studentId: string): (r: Attendance)
    ensures IsRecordOf(r, sessionId, studentId)
    ensures FirstRecordIndex(att, sessionId, studentId).None? ==> r == AbsentDefault(sessionId, studentId)
    ensures FirstRecordIndex(att, sessionId, studentId).Some? ==> r in att
  {
    match FirstRecordIndex(att, sessionId, studentId)
    case None => AbsentDefault(sessionId, studentId)
    case Some(i) => att[i]
  }

  /** Number of documents for the pair. */
  function RecordCount(att: seq<Attendance>, sessionId: string, studentId: string): (n: nat)
    ensures n <= |att|
  {
    if att == [] then 0
    else
      var last := if IsRecordOf(att[|att| - 1], sessionId, studentId) then 1 else 0;
      RecordCount(att[..|att| - 1], sessionId, studentId) + last
  }

  /** No pair has two attendance documents. */
  ghost predicate AtMostOnePerPair(att: seq<Attendance>) {
    forall i, j | 0 <= i < j < |att| :: !IsRecordOf(att[j], att[i].sessionId, att[i].studentId)
  }

  /** Some document for the pair says present: what a query filtered on both
      ids and on status PRESENT finds. */
  predicate HasPresentRecord(att: seq<Attendance>, sessionId: string, studentId: string) {
    exists i | 0 <= i < |att| :: IsRecordOf(att[i], sessionId, studentId) && att[i].status == Present
  }

  lemma {:induction false} RecordCountZero(att: seq<Attendance>, sessionId: string, studentId: string)
    ensures RecordCount(att, sessionId, studentId) == 0 <==> FirstRecordIndex(att, sessionId, studentId).None?
  {
    if att != [] {
      var init := att[..|att| - 1];
      RecordCountZero(init, sessionId, studentId);
      var f, g := FirstRecordIndex(att, sessionId, studentId), FirstRecordIndex(init, sessionId, studentId);
      if g.Some? {
        assert att[g.value] == init[g.value];
      }
      if f.Some? && f.value < |init| {
        assert init[f.value] == att[f.value];
      }
    }
  }

  /** Counting after one document was replaced by another for the same pair
      (or for pairs both other than this one) gives the same count. */
  lemma {:induction false} RecordCountReplace(att: seq<Attendance>, i: nat, x: Attendance, sessionId: string, studentId: string)
    requires i < |att|
    requires IsRecordOf(x, sessionId, studentId) == IsRecordOf(att[i], sessionId, studentId)
    ensures RecordCount(att[i := x], sessionId, studentId) == RecordCount(att, sessionId, studentId)
  {
    var n := |att| - 1;
    if i < n {
      assert att[i := x][..n] == att[..n][i := x];
      RecordCountReplace(att[..n], i, x, sessionId, studentId);
    } else {
      assert att[i := x][..n] == att[..n];
    }
  }

  lemma RecordCountAppend(att: seq<Attendance>, x: Attendance, sessionId: string, studentId: string)
    ensures RecordCount(att + [x], sessionId, studentId)
         == RecordCount(att, sessionId, studentId) + (if IsRecordOf(x, sessionId, studentId) then 1 else 0)
  {
    assert (att + [x])[..|att|] == att;
  }

  /** With at most one document per pair, "some document says present" and
      "the shown record says present" agree. */
  lemma PresentQueryMatchesShownRecord(att: seq<Attendance>, sessionId: string, studentId: string)
    requires AtMostOnePerPair(att)
    ensures HasPresentRecord(att, sessionId, studentId)
        <==> RecordOrAbsent(att, sessionId, studentId).status == Present
  {
    var f := FirstRecordIndex(att, sessionId, studentId);
    if HasPresentRecord(att, sessionId, studentId) {
      var i :| 0 <= i < |att| && IsRecordOf(att[i], sessionId, studentId) && att[i].status == Present;
      assert f.Some?;
    }
  }

  /** The rewrite a teacher's override applies to an existing document. */
  function Overridden(a: Attendance, newStatus: AttendanceStatus, teacherId: string, now: int): Attendance {
    a.(status := newStatus, overriddenBy := teacherId, markedBy := ByTeacher, markedAt := now)
  }

  /** The document a teacher's override inserts when the pair has none. */
  function TeacherRecord(sessionId: string, studentId: string, newStatus: AttendanceStatus, teacherId: string, now: int): (r: Attendance)
    ensures IsRecordOf(r, sessionId, studentId)
    ensures r.status == newStatus && r.markedBy == ByTeacher && r.overriddenBy == teacherId && r.markedAt == now
  {
    Attendance("", sessionId, studentId, "", "", "", newStatus, now, ByTeacher, "", teacherId, None, None)
  }

  /** `overrideAttendance` on the ledger: rewrite the first document for the
      pair, or append a teacher's document when there is none. */
  function Override(att: seq<Attendance>, sessionId: string, studentId: string,
                    newStatus: AttendanceStatus, teacherId: string, now: int): (r: seq<Attendance>)
    ensures |r| == |att| + (if FirstRecordIndex(att, sessionId, studentId).None? then 1 else 0)
    ensures forall j | 0 <= j < |att| && !IsRecordOf(att[j], sessionId, studentId) :: r[j] == att[j]
    ensures forall j | 0 <= j < |att| && FirstRecordIndex(att, sessionId, studentId) != Some(j) :: r[j] == att[j]
    ensures forall j | |att| <= j < |r| :: r[j] == TeacherRecord(sessionId, studentId, newStatus, teacherId, now)
  {
    match FirstRecordIndex(att, sessionId, studentId)
    case Some(i) => att[i := Overridden(att[i], newStatus, teacherId, now)]
    case None => att + [TeacherRecord(sessionId, studentId, newStatus, teacherId, now)]
  }

  /** What an override changes for its pair: the shown record takes the new
      status, the teacher, TEACHER as author and the time, and keeps every
      other field; the pair ends with exactly one more document when it had
      none and as many as before otherwise. */
  lemma OverrideEffect(att: seq<Attendance>, sessionId: string, studentId: string,
                       newStatus: AttendanceStatus, teacherId: string, now: int)
    ensures var r := Override(att, sessionId, studentId, newStatus, teacherId, now);
      && RecordOrAbsent(r, sessionId, studentId)
         == Overridden(RecordOrAbsent(att, sessionId, studentId), newStatus, teacherId, now)
      && RecordCount(r, sessionId, studentId)
         == if RecordCount(att, sessionId, studentId) == 0 then 1 else RecordCount(att, sessionId, studentId)
  {
    var r := Override(att, sessionId, studentId, newStatus, teacherId, now);
    RecordCountZero(att, sessionId, studentId);
    match FirstRecordIndex(att, sessionId, studentId)
    case Some(i) =>
      RecordCountReplace(att, i, Overridden(att[i], newStatus, teacherId, now), sessionId, studentId);
      var g := FirstRecordIndex(r, sessionId, studentId);
      assert r[i] == Overridden(att[i], newStatus, teacherId, now);
      assert g.Some? && g.value == i;
    case None =>
      var x := TeacherRecord(sessionId, studentId, newStatus, teacherId, now);
      RecordCountAppend(att, x, sessionId, studentId);
      var g := FirstRecordIndex(r, sessionId, studentId);
      assert r[|att|] == x;
      assert g.Some? && g.value == |att|;
  }

  /** An override leaves the shown record of every other pair as it was. */
  lemma OverrideKeepsOtherPairs(att: seq<Attendance>, sessionId: string, studentId: string,
                                newStatus: AttendanceStatus, teacherId: string, now: int,
                                otherSession: string, otherStudent: string)
    requires otherSession != sessionId || otherStudent != studentId
    ensures RecordOrAbsent(Override(att, sessionId, studentId, newStatus, teacherId, now), otherSession, otherStudent)
         == RecordOrAbsent(att, otherSession, otherStudent)
  {
    var r := Override(att, sessionId, studentId, newStatus, teacherId, now);
    var f, g := FirstRecordIndex(att, otherSession, otherStudent), FirstRecordIndex(r, otherSession, otherStudent);
    assert forall j | 0 <= j < |att| :: IsRecordOf(r[j], otherSession, otherStudent) == IsRecordOf(att[j], otherSession, otherStudent);
    if f.Some? {
      assert r[f.value] == att[f.value];
    }
    if g.Some? && g.value < |att| {
      assert IsRecordOf(att[g.value], otherSession, otherStudent);
    }
  }

  /** Two overrides in a row on a pair with no document leave exactly one
      document for it, carrying the second call's status and teacher. */
  lemma TwoOverridesLeaveOneRecord(att: seq<Attendance>, sessionId: string, studentId: string,
                                   s1: AttendanceStatus, t1: string, n1: int,
                                   s2: AttendanceStatus, t2: string, n2: int)
    requires RecordCount(att, sessionId, studentId) == 0
    ensures var r := Override(Override(att, sessionId, studentId, s1, t1, n1), sessionId, studentId, s2, t2, n2);
      && RecordCount(r, sessionId, studentId) == 1
      && RecordOrAbsent(r, sessionId, studentId).status == s2
      && RecordOrAbsent(r, sessionId, studentId).overriddenBy == t2
      && RecordOrAbsent(r, sessionId, studentId).markedBy == ByTeacher
  {
    var r1 := Override(att, sessionId, studentId, s1, t1, n1);
    OverrideEffect(att, sessionId, studentId, s1, t1, n1);
    OverrideEffect(r1, sessionId, studentId, s2, t2, n2);
  }

  /** Overriding never creates a second document for a pair. */
  lemma OverrideKeepsAtMostOnePerPair(att: seq<Attendance>, sessionId: string, studentId: string,
                                      newStatus: AttendanceStatus, teacherId: string, now: int)
    requires AtMostOnePerPair(att)
    ensures AtMostOnePerPair(Override(att, sessionId, studentId, newStatus, teacherId, now))
  {
    var r := Override(att, sessionId, studentId, newStatus, teacherId, now);
    var f := FirstRecordIndex(att, sessionId, studentId);
    if f.None? {
      forall i, j | 0 <= i < j < |r| ensures !IsRecordOf(r[j], r[i].sessionId, r[i].studentId) {
        if j == |att| {
          assert !IsRecordOf(att[i], sessionId, studentId);
        }
      }
    }
  }

  /** The document a student's accepted selfie produces through the
      repository's own mark operation. */
  function StudentRecord(sessionId: string, studentId: string, selfieBase64: string, score: real, now: int): (r: Attendance)
    ensures IsRecordOf(r, sessionId, studentId)
    ensures r.status == Present && r.markedBy == ByStudent && r.markedAt == now
    ensures r.selfieBase64 == Some(selfieBase64) && r.verificationScore == Some(score)
  {
    Attendance("", sessionId, studentId, "", "", "", Present, now, ByStudent, "", "", Some(selfieBase64), Some(score))
  }

  /** Marking appends without looking: a student who marks twice ends with two
      documents for the pair. */
  lemma MarkTwiceDuplicates(sessionId: string, studentId: string, selfie: string, score: real, n1: int, n2: int)
    ensures var att := [StudentRecord(sessionId, studentId, selfie, score, n1)]
                     + [StudentRecord(sessionId, studentId, selfie, score, n2)];
      RecordCount(att, sessionId, studentId) == 2 && !AtMostOnePerPair(att)
  {
    var att := [StudentRecord(sessionId, studentId, selfie, score, n1)]
             + [StudentRecord(sessionId, studentId, selfie, score, n2)];
    assert att[..1] == [att[0]];
    assert IsRecordOf(att[1], att[0].sessionId, att[0].studentId);
  }

  /** With two documents for a pair, the per-session list and the subject
      counts disagree: a teacher marked the student absent, the student then
      marked present again. */
  lemma DuplicateRecordsDisagree(sessionId: string, studentId: string, teacherId: string, selfie: string, score: real)
    ensures var att := [TeacherRecord(sessionId, studentId, Absent, teacherId, 1)]
                     + [StudentRecord(sessionId, studentId, selfie, score, 2)];
      && HasPresentRecord(att, sessionId, studentId)
      && RecordOrAbsent(att, sessionId, studentId).status == Absent
  {
    var att := [TeacherRecord(sessionId, studentId, Absent, teacherId, 1)]
             + [StudentRecord(sessionId, studentId, selfie, score, 2)];
    assert att[1].status == Present;
  }

  // ---------------------------------------------------------------------
  // The per-session roster view.

  /** `a` is `b` with some elements left out, the rest in their order. */
  ghost predicate IsSubsequence<T>(a: seq<T>, b: seq<T>)
    decreases |b|
  {
    if b == [] then a == []
    else || (a != [] && a[|a| - 1] == b[|b| - 1] && IsSubsequence(a[..|a| - 1], b[..|b| - 1]))
         || IsSubsequence(a, b[..|b| - 1])
  }

  /** The listed ids whose document exists, in list order: a roster's
      students with a student document, a classroom's subjects with a
      subject document. */
  function ExistingIds<T>(docs: seq<Doc<T>>, ids: seq<string>): (r: seq<string>)
    ensures |r| <= |ids|
    ensures forall id :: id in r <==> id in ids && HasKey(docs, id)
    ensures IsSubsequence(r, ids)
    ensures (forall id | id in ids :: HasKey(docs, id)) ==> r == ids
  {
    if ids == [] then []
    else
      var init := ExistingIds(docs, ids[..|ids| - 1]);
      var id := ids[|ids| - 1];
      assert ids == ids[..|ids| - 1] + [id];
      if HasKey(docs, id) then
        assert (init + [id])[..|init|] == init;
        init + [id]
      else init
  }

  /** One more listed id is kept, at the end, exactly when its document
      exists. */
  lemma ExistingIdsSnoc<T>(docs: seq<Doc<T>>, ids: seq<string>, id: string)
    ensures ExistingIds(docs, ids + [id]) == if HasKey(docs, id) then ExistingIds(docs, ids) + [id] else ExistingIds(docs, ids)
  {
    assert (ids + [id])[..|ids|] == ids;
  }

  /** One row of the per-session list. */
  function SessionRow(students: seq<Doc<Student>>, att: seq<Attendance>, sessionId: string, id: string): (Student, Attendance)
    requires HasKey(students, id)
  {
    (Get(students, id).value.(id := id), RecordOrAbsent(att, sessionId, id))
  }

  /** The per-session list: one row per roster student whose document
      exists, in roster order, holding the student and the record shown for
      them. */
  function SessionRows(students: seq<Doc<Student>>, att: seq<Attendance>, roster: seq<string>, sessionId: string)
    : (r: seq<(Student, Attendance)>)
    ensures forall row | row in r ::
      && row.0.id in roster && HasKey(students, row.0.id)
      && row == SessionRow(students, att, sessionId, row.0.id)
  {
    if roster == [] then []
    else
      var init := SessionRows(students, att, roster[..|roster| - 1], sessionId);
      var id := roster[|roster| - 1];
      assert roster == roster[..|roster| - 1] + [id];
      if HasKey(students, id) then init + [SessionRow(students, att, sessionId, id)] else init
  }

  /** Exactly one row per roster student whose document exists, in roster
      order. */
  lemma {:induction false} SessionRowsInOrder(students: seq<Doc<Student>>, att: seq<Attendance>, roster: seq<string>, sessionId: string)
    ensures var r := SessionRows(students, att, roster, sessionId);
      var ids := ExistingIds(students, roster);
      && |r| == |ids|
      && forall k | 0 <= k < |r| :: HasKey(students, ids[k]) && r[k] == SessionRow(students, att, sessionId, ids[k])
  {
    if roster != [] {
      var earlier := roster[..|roster| - 1];
      var id := roster[|roster| - 1];
      assert roster == earlier + [id];
      SessionRowsInOrder(students, att, earlier, sessionId);
      ExistingIdsSnoc(students, earlier, id);
    }
  }

  /** One more roster entry adds its row when its student document exists. */
  lemma SessionRowsStep(students: seq<Doc<Student>>, att: seq<Attendance>, roster: seq<string>, sessionId: string, i: nat)
    requires i < |roster|
    ensures SessionRows(students, att, roster[..i + 1], sessionId)
         == SessionRows(students, att, roster[..i], sessionId)
            + (if HasKey(students, roster[i]) then [SessionRow(students, att, sessionId, roster[i])] else [])
  {
    assert roster[..i + 1][..i] == roster[..i];
  }

  /** The list never has more rows than the roster, has exactly one per
      roster entry when every student document exists, and shows a synthetic
      absent record for a student with no document for the session. */
  lemma SessionRowsShape(students: seq<Doc<Student>>, att: seq<Attendance>, roster: seq<string>, sessionId: string)
    ensures |SessionRows(students, att, roster, sessionId)| <= |roster|
    ensures (forall id | id in roster :: HasKey(students, id)) ==> |SessionRows(students, att, roster, sessionId)| == |roster|
    ensures forall row | row in SessionRows(students, att, roster, sessionId) ::
      && row.0.id in roster
      && IsRecordOf(row.1, sessionId, row.0.id)
      && (FirstRecordIndex(att, sessionId, row.0.id).None? ==> row.1 == AbsentDefault(sessionId, row.0.id))
  {
    var r := SessionRows(students, att, roster, sessionId);
    var ids := ExistingIds(students, roster);
    SessionRowsInOrder(students, att, roster, sessionId);
    forall row | row in r
      ensures row.0.id in roster && IsRecordOf(row.1, sessionId, row.0.id)
      ensures FirstRecordIndex(att, sessionId, row.0.id).None? ==> row.1 == AbsentDefault(sessionId, row.0.id)
    {
      var k :| 0 <= k < |r| && r[k] == row;
      assert ids[k] in ids;
    }
  }

  // ---------------------------------------------------------------------
  // The student's list of running sessions.

  function SubjectNameOrEmpty(subjects: seq<Doc<Subject>>, id: string): string {
    match Get(subjects, id)
    case Some(s) => s.name
    case None => ""
  }

  function TeacherNameOrEmpty(teachers: seq<Doc<Teacher>>, id: string): string {
    match Get(teachers, id)
    case Some(t) => t.name
    case None => ""
  }

  function ClassroomNameOrEmpty(classrooms: seq<Doc<Classroom>>, id: string): string {
    match Get(classrooms, id)
    case Some(c) => c.name
    case None => ""
  }

  /** A running session offered to a student enrolled in `classroomIds`. */
  predicate OpenFor(s: Session, classroomIds: seq<string>) {
    s.classroomId in classroomIds && s.attendanceWindow
  }

  /** How an index entry is shown: names looked up, "" where missing. */
  function ToActiveSession(s: Session, subjects: seq<Doc<Subject>>, teachers: seq<Doc<Teacher>>,
                           classrooms: seq<Doc<Classroom>>): (a: ActiveSession)
    ensures a.sessionId == s.id && a.startTime == s.startTime && a.endTime == s.endTime
    ensures a.subjectName == (if HasKey(subjects, s.subjectId) then Get(subjects, s.subjectId).value.name else "")
    ensures a.teacherName == (if HasKey(teachers, s.teacherId) then Get(teachers, s.teacherId).value.name else "")
    ensures a.classroomName == (if HasKey(classrooms, s.classroomId) then Get(classrooms, s.classroomId).value.name else "")
  {
    ActiveSession(s.id, SubjectNameOrEmpty(subjects, s.subjectId), TeacherNameOrEmpty(teachers, s.teacherId),
                  ClassroomNameOrEmpty(classrooms, s.classroomId), s.startTime, s.endTime)
  }

  /** The student's list: exactly the index entries in one of the student's
      classrooms whose attendance window is open, in index order. */
  function OfferedSessions(index: seq<Doc<Session>>, classroomIds: seq<string>, subjects: seq<Doc<Subject>>,
                           teachers: seq<Doc<Teacher>>, classrooms: seq<Doc<Classroom>>): (r: seq<ActiveSession>)
    ensures |r| <= |index|
    ensures forall a | a in r ::
      exists d | d in index :: OpenFor(d.data, classroomIds) && a == ToActiveSession(d.data, subjects, teachers, classrooms)
    ensures forall d | d in index && OpenFor(d.data, classroomIds) ::
      ToActiveSession(d.data, subjects, teachers, classrooms) in r
  {
    if index == [] then []
    else
      var init := OfferedSessions(index[..|index| - 1], classroomIds, subjects, teachers, classrooms);
      var d := index[|index| - 1];
      assert index == index[..|index| - 1] + [d];
      if OpenFor(d.data, classroomIds) then init + [ToActiveSession(d.data, subjects, teachers, classrooms)]
      else init
  }

  /** A session whose index entry was deleted is never offered, provided
      every index entry is stored under its own session id. */
  lemma DeletedSessionNotOffered(index: seq<Doc<Session>>, sessionId: string, classroomIds: seq<string>,
                                 subjects: seq<Doc<Subject>>, teachers: seq<Doc<Teacher>>, classrooms: seq<Doc<Classroom>>)
    requires forall d | d in index :: d.data.id == d.key
    ensures forall a | a in OfferedSessions(Delete(index, sessionId), classroomIds, subjects, teachers, classrooms) ::
      a.sessionId != sessionId
  {
    var rest := Delete(index, sessionId);
    forall a | a in OfferedSessions(rest, classroomIds, subjects, teachers, classrooms)
      ensures a.sessionId != sessionId
    {
      var d :| d in rest && OpenFor(d.data, classroomIds) && a == ToActiveSession(d.data, subjects, teachers, classrooms);
      assert d in index;
    }
  }

  // ---------------------------------------------------------------------
  // Per-subject counts.

  /** Number of sessions held for the subject. */
  function SessionsOfSubject(sessions: seq<Doc<Session>>, subjectId: string): (n: nat)
    ensures n <= |sessions|
  {
    if sessions == [] then 0
    else
      var last := if sessions[|sessions| - 1].data.subjectId == subjectId then 1 else 0;
      SessionsOfSubject(sessions[..|sessions| - 1], subjectId) + last
  }

  /** Number of sessions of the subject the student has a present record
      for. Never more than the sessions held. */
  function AttendedSessions(sessions: seq<Doc<Session>>, att: seq<Attendance>, subjectId: string, studentId: string): (n: nat)
    ensures n <= SessionsOfSubject(sessions, subjectId)
  {
    if sessions == [] then 0
    else
      var s := sessions[|sessions| - 1].data;
      AttendedSessions(sessions[..|sessions| - 1], att, subjectId, studentId)
        + (if s.subjectId == subjectId && HasPresentRecord(att, s.id, studentId) then 1 else 0)
  }

  /** New attendance documents never lower a student's attended count. */
  lemma {:induction false} AttendedSessionsMonotone(sessions: seq<Doc<Session>>, att: seq<Attendance>, more: seq<Attendance>,
                                                    subjectId: string, studentId: string)
    ensures AttendedSessions(sessions, att, subjectId, studentId) <= AttendedSessions(sessions, att + more, subjectId, studentId)
  {
    if sessions != [] {
      AttendedSessionsMonotone(sessions[..|sessions| - 1], att, more, subjectId, studentId);
      var s := sessions[|sessions| - 1].data;
      if HasPresentRecord(att, s.id, studentId) {
        var i :| 0 <= i < |att| && IsRecordOf(att[i], s.id, studentId) && att[i].status == Present;
        assert (att + more)[i] == att[i];
      }
    }
  }

  /** A student present at every session of the subject has attended all of
      them. */
  lemma {:induction false} AllPresentAttendedAll(sessions: seq<Doc<Session>>, att: seq<Attendance>, subjectId: string, studentId: string)
    requires forall d | d in sessions && d.data.subjectId == subjectId :: HasPresentRecord(att, d.data.id, studentId)
    ensures AttendedSessions(sessions, att, subjectId, studentId) == SessionsOfSubject(sessions, subjectId)
  {
    if sessions != [] {
      var init := sessions[..|sessions| - 1];
      assert forall d | d in init :: d in sessions;
      AllPresentAttendedAll(init, att, subjectId, studentId);
      assert sessions[|sessions| - 1] in sessions;
    }
  }

  /** A student's standing in one subject, as the subject list shows it. */
  function SubjectRow(sessions: seq<Doc<Session>>, att: seq<Attendance>, studentId: string,
                      subjectId: string, subject: Subject): (row: SubjectAttendance)
    ensures row.subjectId == subjectId && row.subjectName == subject.name && row.subjectCode == subject.code
    ensures row.totalClasses == SessionsOfSubject(sessions, subjectId)
    ensures row.attendedClasses == AttendedSessions(sessions, att, subjectId, studentId)
    ensures row.attendedClasses <= row.totalClasses
    ensures 0.0 <= row.attendancePercentage <= 100.0
    ensures row.totalClasses == 0 ==> row.attendancePercentage == 0.0
  {
    var total := SessionsOfSubject(sessions, subjectId);
    var attended := AttendedSessions(sessions, att, subjectId, studentId);
    SubjectAttendance(subjectId, subject.name, subject.code, total, attended, Percentage(attended, total))
  }

  /** The subject rows of one classroom: one per listed subject whose
      document exists, in list order; subjects whose document is missing are
      skipped. */
  function ClassroomSubjectRows(subjects: seq<Doc<Subject>>, sessions: seq<Doc<Session>>, att: seq<Attendance>,
                                studentId: string, subjectIds: seq<string>): (r: seq<SubjectAttendance>)
    ensures |r| <= |subjectIds|
    ensures forall row | row in r ::
      && row.subjectId in subjectIds && HasKey(subjects, row.subjectId)
      && row == SubjectRow(sessions, att, studentId, row.subjectId, Get(subjects, row.subjectId).value)
  {
    if subjectIds == [] then []
    else
      var earlier := subjectIds[..|subjectIds| - 1];
      var init := ClassroomSubjectRows(subjects, sessions, att, studentId, earlier);
      var id := subjectIds[|subjectIds| - 1];
      assert subjectIds == earlier + [id];
      match Get(subjects, id)
      case None => init
      case Some(subject) => init + [SubjectRow(sessions, att, studentId, id, subject)]
  }

  /** Exactly one row per listed subject that has a document, in list
      order. */
  lemma {:induction false} ClassroomSubjectRowsInOrder(subjects: seq<Doc<Subject>>, sessions: seq<Doc<Session>>,
                                                       att: seq<Attendance>, studentId: string, subjectIds: seq<string>)
    ensures var r := ClassroomSubjectRows(subjects, sessions, att, studentId, subjectIds);
      var ids := ExistingIds(subjects, subjectIds);
      && |r| == |ids|
      && forall k | 0 <= k < |r| :: HasKey(subjects, ids[k]) && r[k] == SubjectRow(sessions, att, studentId, ids[k], Get(subjects, ids[k]).value)
  {
    if subjectIds != [] {
      var earlier := subjectIds[..|subjectIds| - 1];
      var id := subjectIds[|subjectIds| - 1];
      assert subjectIds == earlier + [id];
      ClassroomSubjectRowsInOrder(subjects, sessions, att, studentId, earlier);
      ExistingIdsSnoc(subjects, earlier, id);
    }
  }

  /** `getStudentSubjects`' result: the subject rows of each of the student's
      classrooms in turn; classrooms whose document is missing are skipped. */
  function StudentSubjectRows(classrooms: seq<Doc<Classroom>>, subjects: seq<Doc<Subject>>, sessions: seq<Doc<Session>>,
                              att: seq<Attendance>, studentId: string, classroomIds: seq<string>): (r: seq<SubjectAttendance>)
    ensures forall row | row in r :: HasKey(subjects, row.subjectId)
    ensures forall row | row in r ::
      row == SubjectRow(sessions, att, studentId, row.subjectId, Get(subjects, row.subjectId).value)
    ensures forall row | row in r ::
      exists cid | cid in classroomIds :: HasKey(classrooms, cid) && row.subjectId in Get(classrooms, cid).value.subjects
  {
    if classroomIds == [] then []
    else
      var earlier := classroomIds[..|classroomIds| - 1];
      var cid := classroomIds[|classroomIds| - 1];
      var init := StudentSubjectRows(classrooms, subjects, sessions, att, studentId, earlier);
      assert forall x | x in earlier :: x in classroomIds;
      match Get(classrooms, cid)
      case None => init
      case Some(c) =>
        var rows := ClassroomSubjectRows(subjects, sessions, att, studentId, c.subjects);
        assert forall row | row in rows :: HasKey(classrooms, cid) && row.subjectId in Get(classrooms, cid).value.subjects;
        init + rows
  }

  /** The rows are gathered classroom by classroom: one more classroom adds
      its subject rows after the earlier ones, or nothing when its document
      is missing. */
  lemma StudentSubjectRowsAppend(classrooms: seq<Doc<Classroom>>, subjects: seq<Doc<Subject>>, sessions: seq<Doc<Session>>,
                                 att: seq<Attendance>, studentId: string, classroomIds: seq<string>, cid: string)
    ensures StudentSubjectRows(classrooms, subjects, sessions, att, studentId, classroomIds + [cid])
         == StudentSubjectRows(classrooms, subjects, sessions, att, studentId, classroomIds)
            + (if HasKey(classrooms, cid)
               then ClassroomSubjectRows(subjects, sessions, att, studentId, Get(classrooms, cid).value.subjects)
               else [])
  {
    assert (classroomIds + [cid])[..|classroomIds|] == classroomIds;
  }

  /** Nothing is lost: every subject with a document that one of the
      student's existing classrooms lists yields its subject row. */
  lemma {:induction false} StudentSubjectRowsComplete(classrooms: seq<Doc<Classroom>>, subjects: seq<Doc<Subject>>,
                                                      sessions: seq<Doc<Session>>, att: seq<Attendance>, studentId: string,
                                                      classroomIds: seq<string>, cid: string, sid: string)
    requires cid in classroomIds && HasKey(classrooms, cid)
    requires sid in Get(classrooms, cid).value.subjects && HasKey(subjects, sid)
    ensures SubjectRow(sessions, att, studentId, sid, Get(subjects, sid).value)
            in StudentSubjectRows(classrooms, subjects, sessions, att, studentId, classroomIds)
  {
    var n := |classroomIds| - 1;
    var last := classroomIds[n];
    assert classroomIds == classroomIds[..n] + [last];
    if cid == last {
      var listed := Get(classrooms, cid).value.subjects;
      var ids := ExistingIds(subjects, listed);
      var rows := ClassroomSubjectRows(subjects, sessions, att, studentId, listed);
      ClassroomSubjectRowsInOrder(subjects, sessions, att, studentId, listed);
      assert sid in ids;
      var k :| 0 <= k < |ids| && ids[k] == sid;
      assert rows[k] == SubjectRow(sessions, att, studentId, sid, Get(subjects, sid).value);
    } else {
      assert cid in classroomIds[..n];
      StudentSubjectRowsComplete(classrooms, subjects, sessions, att, studentId, classroomIds[..n], cid, sid);
    }
  }

  /** Every reported subject has attended ≤ total, a percentage within
      [0, 100], and percentage 0 when no session was held. */
  lemma StudentSubjectRowsBounded(classrooms: seq<Doc<Classroom>>, subjects: seq<Doc<Subject>>, sessions: seq<Doc<Session>>,
                                  att: seq<Attendance>, studentId: string, classroomIds: seq<string>)
    ensures forall row | row in StudentSubjectRows(classrooms, subjects, sessions, att, studentId, classroomIds) ::
      && row.attendedClasses <= row.totalClasses
      && 0.0 <= row.attendancePercentage <= 100.0
      && (row.totalClasses == 0 ==> row.attendancePercentage == 0.0)
  {
  }
}
