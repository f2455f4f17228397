/** The teacher's per-session list: one row per roster student with the
    record shown for them, a present count, a selfie button on rows that have
    a selfie, and a button that flips a row between present and absent. */
module SessionAttendanceList {
  import opened Common
  import opened Models
  import opened Store
  import opened Ledger
  import Repository

  /** The status a row's toggle button writes. */
  function Toggle(s: AttendanceStatus): (t: AttendanceStatus)
    ensures t != s
  {
    if s == Present then Absent else Present
  }

  /** Flipping twice gives back the original status. */
  lemma ToggleTwice(s: AttendanceStatus)
    ensures Toggle(Toggle(s)) == s
  {
  }

  /** Rows whose record is present. */
  function PresentCount(rows: seq<(Student, Attendance)>): (n: nat)
    ensures n <= |rows|
    ensures n == |rows| <==> forall k | 0 <= k < |rows| :: rows[k].1.status == Present
  {
    if rows == [] then 0
    else
      assert forall k | 1 <= k < |rows| :: rows[k] == rows[1..][k - 1];
      (if rows[0].1.status == Present then 1 else 0) + PresentCount(rows[1..])
  }

  /** Flipping one row moves the present count by exactly one, down for a
      present row and up for an absent one. */
  lemma {:induction false} ToggleRowMovesCount(rows: seq<(Student, Attendance)>, k: nat)
    requires k < |rows|
    ensures var flipped := rows[k := (rows[k].0, rows[k].1.(status := Toggle(rows[k].1.status)))];
      PresentCount(flipped) == PresentCount(rows) + (if rows[k].1.status == Present then -1 else 1)
  {
    var flipped := rows[k := (rows[k].0, rows[k].1.(status := Toggle(rows[k].1.status)))];
    if k > 0 {
      assert flipped[1..] == rows[1..][k - 1 := flipped[k]];
      ToggleRowMovesCount(rows[1..], k - 1);
    } else {
      assert flipped[1..] == rows[1..];
    }
  }

  /** The selfie button shows only on a row whose record carries a selfie. */
  predicate SelfieViewable(a: Attendance): (ok: bool)
    ensures ok ==> a != AbsentDefault(a.sessionId, a.studentId)
  {
    a.selfieUrl != ""
  }

  /** A record written through the repository's own mark operation keeps its
      image under another field, so its row offers no selfie; a synthetic
      absent row offers none either. */
  lemma NoSelfieOnRepositoryMarks(sessionId: string, studentId: string, selfie: string, score: real, now: int)
    ensures !SelfieViewable(StudentRecord(sessionId, studentId, selfie, score, now))
    ensures !SelfieViewable(AbsentDefault(sessionId, studentId))
  {
  }

  /** `toggleAttendance`: overrides the row's student in this session with
      the flipped status in the current teacher's name. */
  method ToggleAttendance(repo: Repository.FirebaseRepository, sessionId: string, teacherId: string,
                          row: (Student, Attendance), now: int)
    returns (o: Outcome)
    requires repo.Valid()
    modifies repo
    ensures repo.Valid()
    ensures o == Pass
    ensures repo.attendance == Override(old(repo.attendance), sessionId, row.0.id, Toggle(row.1.status), teacherId, now)
    ensures repo.teachers == old(repo.teachers) && repo.students == old(repo.students)
    ensures repo.classrooms == old(repo.classrooms) && repo.subjects == old(repo.subjects)
    ensures repo.sessions == old(repo.sessions) && repo.activeSessions == old(repo.activeSessions)
  {
    o := repo.OverrideAttendance(sessionId, row.0.id, Toggle(row.1.status), teacherId, now);
  }

  /** After a toggle of a row the list showed, the reloaded list shows that
      student flipped and authored by the teacher, every other student of the
      session as before; toggling the reloaded row again restores the
      original status. */
  lemma ToggleFlipsShownRow(att: seq<Attendance>, sessionId: string, studentId: string,
                            teacherId: string, n1: int, n2: int, other: string)
    ensures var before := RecordOrAbsent(att, sessionId, studentId);
      var att1 := Override(att, sessionId, studentId, Toggle(before.status), teacherId, n1);
      var after := RecordOrAbsent(att1, sessionId, studentId);
      var att2 := Override(att1, sessionId, studentId, Toggle(after.status), teacherId, n2);
      && after.status == Toggle(before.status)
      && after.markedBy == ByTeacher && after.overriddenBy == teacherId
      && (other != studentId ==> RecordOrAbsent(att1, sessionId, other) == RecordOrAbsent(att, sessionId, other))
      && RecordOrAbsent(att2, sessionId, studentId).status == before.status
  {
    var before := RecordOrAbsent(att, sessionId, studentId);
    var att1 := Override(att, sessionId, studentId, Toggle(before.status), teacherId, n1);
    var after := RecordOrAbsent(att1, sessionId, studentId);
    OverrideEffect(att, sessionId, studentId, Toggle(before.status), teacherId, n1);
    OverrideEffect(att1, sessionId, studentId, Toggle(after.status), teacherId, n2);
    if other != studentId {
      OverrideKeepsOtherPairs(att, sessionId, studentId, Toggle(before.status), teacherId, n1, sessionId, other);
    }
  }
}
