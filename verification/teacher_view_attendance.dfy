/** The teacher's attendance history screen: a classroom, then one of its
    subjects, then one of its students is picked, and the student's history
    for that classroom and subject is shown newest first with a summary. */
module TeacherViewAttendance {
  import opened Common
  import opened Models
  import opened Store
  import opened History
  import Repository

  const NeedClassroom := "Please select classroom first"
  const NeedClassroomAndSubject := "Please select classroom and subject first"

  /** The subject name a history row shows: the subject document's name, or
      "Unknown" when there is no such document. Session documents carry no
      subject name, so this lookup always runs. */
  function SubjectNameOrUnknown(subjects: seq<Doc<Subject>>, subjectId: string): (name: string)
    ensures HasKey(subjects, subjectId) ==> name == Get(subjects, subjectId).value.name
    ensures !HasKey(subjects, subjectId) ==> name == "Unknown"
  {
    match Get(subjects, subjectId)
    case Some(s) => s.name
    case None => "Unknown"
  }

  /** The unsorted history for one classroom, subject and student. */
  function TeacherHistory(sessions: seq<Doc<Session>>, subjects: seq<Doc<Subject>>, att: seq<Attendance>,
                          classroomId: string, subjectId: string, studentId: string): (r: seq<AttendanceRecord>)
    ensures |r| == |MatchingSessions(sessions, classroomId, subjectId)|
    ensures forall e | e in r :: e.subjectName == SubjectNameOrUnknown(subjects, subjectId)
  {
    HistoryOf(MatchingSessions(sessions, classroomId, subjectId), SubjectNameOrUnknown(subjects, subjectId), att, studentId)
  }

  /** The rows `loadAttendanceHistory` builds: the subject name looked up
      once, the sessions' loop, then the sort. */
  method SortedHistory(sessions: seq<Doc<Session>>, subjects: seq<Doc<Subject>>, att: seq<Attendance>,
                       classroomId: string, subjectId: string, studentId: string)
    returns (rows: seq<AttendanceRecord>)
    ensures rows == SortByStart(TeacherHistory(sessions, subjects, att, classroomId, subjectId, studentId))
  {
    var name := SubjectNameOrUnknown(subjects, subjectId);
    var unsorted := CollectHistory(sessions, att, classroomId, subjectId, name, studentId);
    rows := SortByStart(unsorted);
  }

  class TeacherViewAttendanceScreen {
    var teacherId: string
    var selectedClassroom: Option<Classroom>
    var selectedSubjectId: Option<string>
    var selectedSubjectName: Option<string>
    var selectedStudent: Option<Student>
    /** The rows on screen and the summary above them. */
    var records: seq<AttendanceRecord>
    var stats: AttendanceStats

    /** The selection cascade: a subject only under a classroom, a student
        only under a subject; the rows are newest first and summarised. */
    ghost predicate Valid()
      reads this
    {
      && (selectedSubjectId.Some? ==> selectedClassroom.Some?)
      && (selectedStudent.Some? ==> selectedSubjectId.Some?)
      && (selectedSubjectId.Some? <==> selectedSubjectName.Some?)
      && NewestFirst(records)
      && stats == CalculateStats(records)
    }

    constructor(teacherId: string)
      ensures Valid()
      ensures this.teacherId == teacherId
      ensures selectedClassroom.None? && selectedSubjectId.None? && selectedStudent.None? && records == []
    {
      this.teacherId := teacherId;
      selectedClassroom, selectedSubjectId, selectedSubjectName, selectedStudent := None, None, None, None;
      records, stats := [], CalculateStats([]);
    }

    /** Choosing a classroom clears the subject, the student and the rows. */
    method SelectClassroom(c: Classroom)
      requires Valid()
      modifies this
      ensures Valid()
      ensures selectedClassroom == Some(c)
      ensures selectedSubjectId.None? && selectedSubjectName.None? && selectedStudent.None?
      ensures records == [] && teacherId == old(teacherId)
    {
      selectedClassroom := Some(c);
      selectedSubjectId, selectedSubjectName := None, None;
      selectedStudent := None;
      records, stats := [], CalculateStats([]);
    }

    /** The subject button: refused without a classroom; otherwise choosing a
        subject clears the student and the rows. */
    method SelectSubject(subjectId: string, subjectLabel: string) returns (o: Outcome)
      requires Valid()
      modifies this
      ensures Valid()
      ensures old(selectedClassroom).None? ==> o == Fail(NeedClassroom) && unchanged(this)
      ensures old(selectedClassroom).Some? ==>
        && o == Pass
        && selectedClassroom == old(selectedClassroom)
        && selectedSubjectId == Some(subjectId) && selectedSubjectName == Some(subjectLabel)
        && selectedStudent.None? && records == [] && teacherId == old(teacherId)
    {
      if selectedClassroom.None? {
        return Fail(NeedClassroom);
      }
      selectedSubjectId, selectedSubjectName := Some(subjectId), Some(subjectLabel);
      selectedStudent := None;
      records, stats := [], CalculateStats([]);
      o := Pass;
    }

    /** The student button: refused without a classroom and a subject;
        otherwise choosing a student loads that student's history. */
    method SelectStudent(s: Student, repo: Repository.FirebaseRepository) returns (o: Outcome)
      requires Valid()
      modifies this
      ensures Valid()
      ensures (old(selectedClassroom).None? || old(selectedSubjectId).None?) ==>
        o == Fail(NeedClassroomAndSubject) && unchanged(this)
      ensures old(selectedClassroom).Some? && old(selectedSubjectId).Some? ==>
        && o == Pass
        && selectedClassroom == old(selectedClassroom) && selectedSubjectId == old(selectedSubjectId)
        && selectedSubjectName == old(selectedSubjectName) && selectedStudent == Some(s)
        && records == SortByStart(TeacherHistory(repo.sessions, repo.subjects, repo.attendance,
                                                 selectedClassroom.value.id, selectedSubjectId.value, s.id))
    {
      if selectedClassroom.None? || selectedSubjectId.None? {
        return Fail(NeedClassroomAndSubject);
      }
      selectedStudent := Some(s);
      LoadAttendanceHistory(repo);
      o := Pass;
    }

    /** `loadAttendanceHistory`: with all three selections made, one row per
        session of the classroom and subject, newest first, and its summary;
        otherwise nothing happens. */
    method LoadAttendanceHistory(repo: Repository.FirebaseRepository)
      requires Valid()
      modifies this
      ensures Valid()
      ensures selectedClassroom == old(selectedClassroom) && selectedSubjectId == old(selectedSubjectId)
      ensures selectedSubjectName == old(selectedSubjectName) && selectedStudent == old(selectedStudent)
      ensures teacherId == old(teacherId)
      ensures (selectedClassroom.None? || selectedStudent.None? || selectedSubjectId.None?) ==> records == old(records)
      ensures selectedClassroom.Some? && selectedStudent.Some? && selectedSubjectId.Some? ==>
        records == SortByStart(TeacherHistory(repo.sessions, repo.subjects, repo.attendance,
                                              selectedClassroom.value.id, selectedSubjectId.value, selectedStudent.value.id))
    {
      if selectedClassroom.None? || selectedStudent.None? || selectedSubjectId.None? {
        return;
      }
      var sorted := SortedHistory(repo.sessions, repo.subjects, repo.attendance, selectedClassroom.value.id,
                                  selectedSubjectId.value, selectedStudent.value.id);
      records, stats := sorted, CalculateStats(sorted);
    }
  }

  /** What the screen shows after a student is picked: one row per session of
      the classroom and subject (no session twice, none missing), each row
      read from the student's first attendance document for it or absent
      without one, newest first, and the same summary the unsorted rows
      give. */
  lemma ShownHistory(sessions: seq<Doc<Session>>, subjects: seq<Doc<Subject>>, att: seq<Attendance>,
                     classroomId: string, subjectId: string, studentId: string)
    requires UniqueKeys(sessions)
    ensures var h := TeacherHistory(sessions, subjects, att, classroomId, subjectId, studentId);
      && multiset(SortByStart(h)) == multiset(h)
      && NewestFirst(SortByStart(h))
      && CalculateStats(SortByStart(h)) == CalculateStats(h)
      && (forall k | 0 <= k < |sessions| && sessions[k].data.classroomId == classroomId && sessions[k].data.subjectId == subjectId ::
            exists i | 0 <= i < |h| :: h[i].sessionId == sessions[k].key)
      && (forall i, j | 0 <= i < j < |h| :: h[i].sessionId != h[j].sessionId)
      && (forall i | 0 <= i < |h| ::
            h[i] == RecordFor(MatchingSessions(sessions, classroomId, subjectId)[i], SubjectNameOrUnknown(subjects, subjectId), att, studentId))
  {
    var m := MatchingSessions(sessions, classroomId, subjectId);
    var name := SubjectNameOrUnknown(subjects, subjectId);
    HistoryOnePerSession(sessions, classroomId, subjectId, name, att, studentId, HistoryOf(m, name, att, studentId));
    HistoryOfRecords(m, name, att, studentId);
    StatsIgnoreOrder(HistoryOf(m, name, att, studentId));
  }
}
