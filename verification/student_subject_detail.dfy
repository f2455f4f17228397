/** The student's history for one subject, across every classroom the
    student belongs to, newest first, with a summary whose percentage is
    coloured by band. */
module StudentSubjectDetail {
  import opened Common
  import opened Models
  import opened Store
  import opened History
  import Repository

  const SubjectNotFound := "Subject not found"

  /** The first subject document, in store order, with the given name. */
  function FirstSubjectNamed(subjects: seq<Doc<Subject>>, name: string): (r: Option<nat>)
    ensures r.Some? ==> r.value < |subjects| && subjects[r.value].data.name == name
    ensures r.Some? ==> forall j | 0 <= j < r.value :: subjects[j].data.name != name
    ensures r.None? <==> forall j | 0 <= j < |subjects| :: subjects[j].data.name != name
  {
    if subjects == [] then None
    else if subjects[0].data.name == name then Some(0)
    else
      match FirstSubjectNamed(subjects[1..], name)
      case Some(i) => Some(i + 1)
      case None => None
  }

  /** The classroom ids on the student's document; none for a missing
      document. */
  function ClassroomsOf(students: seq<Doc<Student>>, studentId: string): (cs: seq<string>)
    ensures HasKey(students, studentId) ==> cs == Get(students, studentId).value.classrooms
    ensures !HasKey(students, studentId) ==> cs == []
  {
    match Get(students, studentId)
    case Some(s) => s.classrooms
    case None => []
  }

  /** The unsorted history: classroom by classroom, in the order the student
      document lists them, that classroom's sessions of the subject. */
  function StudentHistory(sessions: seq<Doc<Session>>, att: seq<Attendance>, classroomIds: seq<string>,
                          subjectId: string, subjectName: string, studentId: string): (r: seq<AttendanceRecord>)
    ensures forall e | e in r :: e.subjectName == subjectName
  {
    if classroomIds == [] then []
    else
      StudentHistory(sessions, att, classroomIds[..|classroomIds| - 1], subjectId, subjectName, studentId)
      + HistoryOf(MatchingSessions(sessions, classroomIds[|classroomIds| - 1], subjectId), subjectName, att, studentId)
  }

  ghost predicate NoDuplicates(xs: seq<string>) {
    forall i, j | 0 <= i < j < |xs| :: xs[i] != xs[j]
  }

  /** The history for a non-empty classroom list: that of all but the last
      classroom, then the last classroom's. */
  lemma StudentHistoryLast(sessions: seq<Doc<Session>>, att: seq<Attendance>, cs: seq<string>,
                           subjectId: string, name: string, studentId: string)
    requires cs != []
    ensures StudentHistory(sessions, att, cs, subjectId, name, studentId)
         == StudentHistory(sessions, att, cs[..|cs| - 1], subjectId, name, studentId)
            + HistoryOf(MatchingSessions(sessions, cs[|cs| - 1], subjectId), name, att, studentId)
  {
  }

  /** The session the `i`th record is for: one of the subject held in one
      of the student's classrooms. */
  lemma {:induction false} StudentRecordSession(sessions: seq<Doc<Session>>, att: seq<Attendance>, cs: seq<string>,
                                                subjectId: string, name: string, studentId: string, i: nat)
    returns (k: nat)
    requires i < |StudentHistory(sessions, att, cs, subjectId, name, studentId)|
    ensures var h := StudentHistory(sessions, att, cs, subjectId, name, studentId);
      && k < |sessions| && sessions[k].key == h[i].sessionId
      && sessions[k].data.classroomId in cs && sessions[k].data.subjectId == subjectId
    decreases |cs|
  {
    assert cs != [];
    var n := |cs| - 1;
    var c, prev := cs[n], cs[..n];
    var hp := StudentHistory(sessions, att, prev, subjectId, name, studentId);
    var hc := HistoryOf(MatchingSessions(sessions, c, subjectId), name, att, studentId);
    StudentHistoryLast(sessions, att, cs, subjectId, name, studentId);
    if i < |hp| {
      k := StudentRecordSession(sessions, att, prev, subjectId, name, studentId, i);
      assert (hp + hc)[i] == hp[i];
      var x := sessions[k].data.classroomId;
      var j :| 0 <= j < n && prev[j] == x;
      assert cs[j] == x;
    } else {
      k := SessionOfRecord(sessions, c, subjectId, name, att, studentId, i - |hp|);
      assert (hp + hc)[i] == hc[i - |hp|];
      assert cs[n] == c;
    }
  }

  /** Some session of the subject, held in one of the classrooms `cs`, is
      stored under `key`. */
  ghost predicate HeldIn(sessions: seq<Doc<Session>>, key: string, cs: seq<string>, subjectId: string) {
    exists k | 0 <= k < |sessions| ::
      sessions[k].key == key && sessions[k].data.classroomId in cs && sessions[k].data.subjectId == subjectId
  }

  /** Every record is a session of the subject held in one of the student's
      classrooms: sessions of other classrooms or subjects are left out. */
  lemma StudentHistorySound(sessions: seq<Doc<Session>>, att: seq<Attendance>, cs: seq<string>,
                            subjectId: string, name: string, studentId: string, h: seq<AttendanceRecord>)
    requires h == StudentHistory(sessions, att, cs, subjectId, name, studentId)
    ensures forall i | 0 <= i < |h| :: HeldIn(sessions, h[i].sessionId, cs, subjectId)
  {
    forall i | 0 <= i < |h|
      ensures HeldIn(sessions, h[i].sessionId, cs, subjectId)
    {
      var k := StudentRecordSession(sessions, att, cs, subjectId, name, studentId, i);
    }
  }

  /** The record of a session of the subject held in the student's last
      classroom: its position in the history, after the other classrooms'
      records. */
  lemma LastClassroomRecord(sessions: seq<Doc<Session>>, att: seq<Attendance>, cs: seq<string>,
                            subjectId: string, name: string, studentId: string, k: nat)
    returns (i: nat)
    requires cs != [] && k < |sessions|
    requires sessions[k].data.classroomId == cs[|cs| - 1] && sessions[k].data.subjectId == subjectId
    ensures var h := StudentHistory(sessions, att, cs, subjectId, name, studentId);
      i < |h| && h[i].sessionId == sessions[k].key
  {
    var hp := StudentHistory(sessions, att, cs[..|cs| - 1], subjectId, name, studentId);
    var hc := HistoryOf(MatchingSessions(sessions, cs[|cs| - 1], subjectId), name, att, studentId);
    StudentHistoryLast(sessions, att, cs, subjectId, name, studentId);
    var q := RecordOfSession(sessions, cs[|cs| - 1], subjectId, name, att, studentId, k);
    i := |hp| + q;
    IndexIntoSecond(hp, hc, q);
  }

  lemma IndexIntoSecond<T>(a: seq<T>, b: seq<T>, q: nat)
    requires q < |b|
    ensures |a| + q < |a + b| && (a + b)[|a| + q] == b[q]
  {
  }

  /** The record of a session of the subject held in the student's `j`th
      classroom: its position in the history. */
  lemma {:induction false} StudentSessionRecord(sessions: seq<Doc<Session>>, att: seq<Attendance>, cs: seq<string>,
                                                subjectId: string, name: string, studentId: string, k: nat, j: nat)
    returns (i: nat)
    requires k < |sessions| && j < |cs| && sessions[k].data.classroomId == cs[j] && sessions[k].data.subjectId == subjectId
    ensures var h := StudentHistory(sessions, att, cs, subjectId, name, studentId);
      i < |h| && h[i].sessionId == sessions[k].key
    decreases |cs|
  {
    var n := |cs| - 1;
    if j == n {
      i := LastClassroomRecord(sessions, att, cs, subjectId, name, studentId, k);
    } else {
      var prev := cs[..n];
      var hp := StudentHistory(sessions, att, prev, subjectId, name, studentId);
      var hc := HistoryOf(MatchingSessions(sessions, cs[n], subjectId), name, att, studentId);
      StudentHistoryLast(sessions, att, cs, subjectId, name, studentId);
      assert prev[j] == cs[j];
      i := StudentSessionRecord(sessions, att, prev, subjectId, name, studentId, k, j);
      assert (hp + hc)[i] == hp[i];
    }
  }

  /** Every session of the subject held in one of the student's classrooms
      has a record. */
  lemma StudentHistoryComplete(sessions: seq<Doc<Session>>, att: seq<Attendance>, cs: seq<string>,
                               subjectId: string, name: string, studentId: string, h: seq<AttendanceRecord>)
    requires h == StudentHistory(sessions, att, cs, subjectId, name, studentId)
    ensures forall k | 0 <= k < |sessions| && sessions[k].data.classroomId in cs && sessions[k].data.subjectId == subjectId ::
      exists i | 0 <= i < |h| :: h[i].sessionId == sessions[k].key
  {
    forall k | 0 <= k < |sessions| && sessions[k].data.classroomId in cs && sessions[k].data.subjectId == subjectId
      ensures exists i | 0 <= i < |h| :: h[i].sessionId == sessions[k].key
    {
      var j :| 0 <= j < |cs| && cs[j] == sessions[k].data.classroomId;
      var i := StudentSessionRecord(sessions, att, cs, subjectId, name, studentId, k, j);
      assert h[i].sessionId == sessions[k].key;
    }
  }

  /** When the student's classroom list has no repeats, no session appears
      twice. */
  lemma {:induction false} StudentHistoryDistinct(sessions: seq<Doc<Session>>, att: seq<Attendance>, cs: seq<string>,
                                                  subjectId: string, name: string, studentId: string, h: seq<AttendanceRecord>)
    requires UniqueKeys(sessions) && NoDuplicates(cs)
    requires h == StudentHistory(sessions, att, cs, subjectId, name, studentId)
    ensures forall i, j | 0 <= i < j < |h| :: h[i].sessionId != h[j].sessionId
  {
    if cs != [] {
      var n := |cs| - 1;
      var c, prev := cs[n], cs[..n];
      assert cs == prev + [c];
      assert NoDuplicates(prev);
      assert c !in prev;
      var hp := StudentHistory(sessions, att, prev, subjectId, name, studentId);
      var hc := HistoryOf(MatchingSessions(sessions, c, subjectId), name, att, studentId);
      StudentHistoryDistinct(sessions, att, prev, subjectId, name, studentId, hp);
      HistoryDistinctSessions(sessions, c, subjectId, name, att, studentId, hc);
      forall i, j | 0 <= i < |hp| && 0 <= j < |hc|
        ensures hp[i].sessionId != hc[j].sessionId
      {
        var k1 := StudentRecordSession(sessions, att, prev, subjectId, name, studentId, i);
        var k2 := SessionOfRecord(sessions, c, subjectId, name, att, studentId, j);
        DifferentClassroomsDifferentKeys(sessions, k1, k2);
      }
      AppendDistinct(hp, hc);
      assert h == hp + hc;
    }
  }

  lemma AppendDistinct(a: seq<AttendanceRecord>, b: seq<AttendanceRecord>)
    requires forall i, j | 0 <= i < j < |a| :: a[i].sessionId != a[j].sessionId
    requires forall i, j | 0 <= i < j < |b| :: b[i].sessionId != b[j].sessionId
    requires forall i, j | 0 <= i < |a| && 0 <= j < |b| :: a[i].sessionId != b[j].sessionId
    ensures forall i, j | 0 <= i < j < |a + b| :: (a + b)[i].sessionId != (a + b)[j].sessionId
  {
    forall i, j | 0 <= i < j < |a + b|
      ensures (a + b)[i].sessionId != (a + b)[j].sessionId
    {
      if j < |a| {
        assert (a + b)[i] == a[i] && (a + b)[j] == a[j];
      } else if |a| <= i {
        assert (a + b)[i] == b[i - |a|] && (a + b)[j] == b[j - |a|];
      } else {
        assert (a + b)[i] == a[i] && (a + b)[j] == b[j - |a|];
      }
    }
  }

  lemma DifferentClassroomsDifferentKeys(sessions: seq<Doc<Session>>, k1: nat, k2: nat)
    requires UniqueKeys(sessions) && k1 < |sessions| && k2 < |sessions|
    requires sessions[k1].data.classroomId != sessions[k2].data.classroomId
    ensures sessions[k1].key != sessions[k2].key
  {
  }

  /** The outer loop over the student's classrooms. */
  method CollectStudentHistory(sessions: seq<Doc<Session>>, att: seq<Attendance>, classroomIds: seq<string>,
                               subjectId: string, subjectName: string, studentId: string)
    returns (all: seq<AttendanceRecord>)
    ensures all == StudentHistory(sessions, att, classroomIds, subjectId, subjectName, studentId)
  {
    all := [];
    var i := 0;
    while i < |classroomIds|
      invariant 0 <= i <= |classroomIds|
      invariant all == StudentHistory(sessions, att, classroomIds[..i], subjectId, subjectName, studentId)
    {
      assert classroomIds[..i + 1][..i] == classroomIds[..i];
      var recs := CollectHistory(sessions, att, classroomIds[i], subjectId, subjectName, studentId);
      all := all + recs;
      i := i + 1;
    }
    assert classroomIds[..i] == classroomIds;
  }

  /** The colour of the percentage. */
  datatype Band = Good | Warning | Poor {
    function Colour(): string {
      match this
      case Good => "#4CAF50"
      case Warning => "#FFC107"
      case Poor => "#F44336"
    }
  }

  /** At least 75 is good, at least 50 a warning, anything lower poor. */
  function BandOf(percentage: real): (b: Band)
    ensures b == Good <==> percentage >= 75.0
    ensures b == Warning <==> 50.0 <= percentage < 75.0
    ensures b == Poor <==> percentage < 50.0
  {
    if percentage >= 75.0 then Good
    else if percentage >= 50.0 then Warning
    else Poor
  }

  /** A full record is good and an empty one poor. */
  lemma BandOfHistory(rs: seq<AttendanceRecord>)
    requires rs != []
    ensures (forall i | 0 <= i < |rs| :: rs[i].status == Present) ==> BandOf(CalculateStats(rs).percentage) == Good
    ensures CountPresent(rs) == 0 ==> BandOf(CalculateStats(rs).percentage) == Poor
  {
  }

  class StudentSubjectDetailScreen {
    var studentId: string
    var subjectName: string
    var subjectCode: string
    var subjectId: string
    /** The rows on screen and the summary above them. */
    var records: seq<AttendanceRecord>
    var stats: AttendanceStats

    ghost predicate Valid()
      reads this
    {
      NewestFirst(records) && stats == CalculateStats(records)
    }

    constructor(studentId: string, subjectName: string, subjectCode: string)
      ensures Valid()
      ensures this.studentId == studentId && this.subjectName == subjectName && this.subjectCode == subjectCode
      ensures subjectId == "" && records == []
    {
      this.studentId, this.subjectName, this.subjectCode := studentId, subjectName, subjectCode;
      subjectId := "";
      records, stats := [], CalculateStats([]);
    }

    /** `loadAttendanceDetails`: the subject is looked up by name; without it
        nothing is shown. Otherwise every session of it in each of the
        student's classrooms gives a row, newest first, with its summary. */
    method LoadAttendanceDetails(repo: Repository.FirebaseRepository) returns (o: Outcome)
      requires Valid()
      modifies this
      ensures Valid()
      ensures studentId == old(studentId) && subjectName == old(subjectName) && subjectCode == old(subjectCode)
      ensures FirstSubjectNamed(repo.subjects, subjectName).None? ==>
        o == Fail(SubjectNotFound) && records == [] && subjectId == old(subjectId)
      ensures FirstSubjectNamed(repo.subjects, subjectName).Some? ==>
        && o == Pass
        && subjectId == repo.subjects[FirstSubjectNamed(repo.subjects, subjectName).value].key
        && records == SortByStart(StudentHistory(repo.sessions, repo.attendance, ClassroomsOf(repo.students, studentId),
                                                 subjectId, subjectName, studentId))
    {
      var found := FirstSubjectNamed(repo.subjects, subjectName);
      if found.None? {
        records, stats := [], CalculateStats([]);
        return Fail(SubjectNotFound);
      }
      subjectId := repo.subjects[found.value].key;
      var classroomIds := ClassroomsOf(repo.students, studentId);
      var all := CollectStudentHistory(repo.sessions, repo.attendance, classroomIds, subjectId, subjectName, studentId);
      var sorted := SortByStart(all);
      records, stats := sorted, CalculateStats(sorted);
      o := Pass;
    }
  }
}
