/** Attendance histories as the two history screens build them: one record per
    session, read from the first attendance document for the student; sorted
    newest first; summarised as counts and a percentage. */
module History {
  import opened Common
  import opened Models
  import opened Store
  import opened Ledger

  /** The record shown for one session: the first attendance document's
      status (an unknown name reads as absent), time and selfie, or absent
      with time 0 and no selfie when the student has no document. The session
      is identified by its document id. */
  function RecordFor(doc: Doc<Session>, subjectName: string, att: seq<Attendance>, studentId: string): (r: AttendanceRecord)
    ensures r.sessionId == doc.key && r.subjectName == subjectName && r.date == doc.data.date
    ensures r.startTime == doc.data.startTime && r.endTime == doc.data.endTime
    ensures FirstRecordIndex(att, doc.key, studentId).None? ==> r.status == Absent && r.markedAt == 0 && r.selfieUrl == ""
    ensures FirstRecordIndex(att, doc.key, studentId).Some? ==>
      var a := att[FirstRecordIndex(att, doc.key, studentId).value];
      r.status == a.status && r.markedAt == a.markedAt && r.selfieUrl == a.selfieUrl
  {
    var s := doc.data;
    match FirstRecordIndex(att, doc.key, studentId)
    case Some(i) =>
      ParseAttendanceStatusRoundTrip(att[i].status);
      AttendanceRecord(doc.key, subjectName, s.date, s.startTime, s.endTime,
                       ParseAttendanceStatus(Some(att[i].status.Name())), att[i].markedAt, att[i].selfieUrl)
    case None =>
      AttendanceRecord(doc.key, subjectName, s.date, s.startTime, s.endTime, Absent, 0, "")
  }

  /** The sessions of one classroom and subject, in store order. */
  function MatchingSessions(sessions: seq<Doc<Session>>, classroomId: string, subjectId: string): (m: seq<Doc<Session>>)
    ensures |m| <= |sessions|
  {
    if sessions == [] then []
    else
      var d := sessions[|sessions| - 1];
      var m := MatchingSessions(sessions[..|sessions| - 1], classroomId, subjectId);
      if d.data.classroomId == classroomId && d.data.subjectId == subjectId then m + [d] else m
  }

  /** The sessions kept are exactly the stored ones of that classroom and
      subject. */
  lemma {:induction false} MatchingSessionsMembers(sessions: seq<Doc<Session>>, classroomId: string, subjectId: string)
    ensures forall d :: d in MatchingSessions(sessions, classroomId, subjectId) <==>
      d in sessions && d.data.classroomId == classroomId && d.data.subjectId == subjectId
  {
    if sessions != [] {
      var n := |sessions| - 1;
      MatchingSessionsMembers(sessions[..n], classroomId, subjectId);
      assert sessions == sessions[..n] + [sessions[n]];
    }
  }

  lemma {:induction false} MatchingKeepsUniqueKeys(sessions: seq<Doc<Session>>, classroomId: string, subjectId: string)
    requires UniqueKeys(sessions)
    ensures UniqueKeys(MatchingSessions(sessions, classroomId, subjectId))
  {
    if sessions != [] {
      var n := |sessions| - 1;
      var d := sessions[n];
      var m := MatchingSessions(sessions[..n], classroomId, subjectId);
      MatchingKeepsUniqueKeys(sessions[..n], classroomId, subjectId);
      MatchingSessionsMembers(sessions[..n], classroomId, subjectId);
      forall x | x in m ensures x.key != d.key {
        var k :| 0 <= k < n && sessions[..n][k] == x;
      }
    }
  }

  /** One record per given session document, in the same order. */
  function HistoryOf(docs: seq<Doc<Session>>, subjectName: string, att: seq<Attendance>, studentId: string): (r: seq<AttendanceRecord>)
    ensures |r| == |docs|
    ensures forall i | 0 <= i < |docs| :: r[i].sessionId == docs[i].key && r[i].subjectName == subjectName
  {
    if docs == [] then []
    else HistoryOf(docs[..|docs| - 1], subjectName, att, studentId) + [RecordFor(docs[|docs| - 1], subjectName, att, studentId)]
  }

  /** Each record of a history is the one its session shows. */
  lemma {:induction false} HistoryOfRecords(docs: seq<Doc<Session>>, subjectName: string, att: seq<Attendance>, studentId: string)
    ensures var r := HistoryOf(docs, subjectName, att, studentId);
      forall i | 0 <= i < |docs| :: r[i] == RecordFor(docs[i], subjectName, att, studentId)
  {
    if docs != [] {
      HistoryOfRecords(docs[..|docs| - 1], subjectName, att, studentId);
    }
  }

  /** The loop both history screens run over one classroom's sessions of a
      subject: one record per session, in store order. */
  method CollectHistory(sessions: seq<Doc<Session>>, att: seq<Attendance>, classroomId: string, subjectId: string,
                        subjectName: string, studentId: string)
    returns (recs: seq<AttendanceRecord>)
    ensures recs == HistoryOf(MatchingSessions(sessions, classroomId, subjectId), subjectName, att, studentId)
  {
    recs := [];
    var i := 0;
    while i < |sessions|
      invariant 0 <= i <= |sessions|
      invariant recs == HistoryOf(MatchingSessions(sessions[..i], classroomId, subjectId), subjectName, att, studentId)
    {
      var doc := sessions[i];
      assert sessions[..i + 1][..i] == sessions[..i];
      var m := MatchingSessions(sessions[..i], classroomId, subjectId);
      if doc.data.classroomId == classroomId && doc.data.subjectId == subjectId {
        assert (m + [doc])[..|m|] == m;
        recs := recs + [RecordFor(doc, subjectName, att, studentId)];
      }
      i := i + 1;
    }
    assert sessions[..i] == sessions;
  }

  /** The record of session `k` of the classroom and subject: its position
      in the history. */
  lemma RecordOfSession(sessions: seq<Doc<Session>>, classroomId: string, subjectId: string,
                        subjectName: string, att: seq<Attendance>, studentId: string, k: nat)
    returns (i: nat)
    requires k < |sessions| && sessions[k].data.classroomId == classroomId && sessions[k].data.subjectId == subjectId
    ensures var r := HistoryOf(MatchingSessions(sessions, classroomId, subjectId), subjectName, att, studentId);
      i < |r| && r[i].sessionId == sessions[k].key
  {
    var m := MatchingSessions(sessions, classroomId, subjectId);
    MatchingSessionsMembers(sessions, classroomId, subjectId);
    assert sessions[k] in m;
    i :| 0 <= i < |m| && m[i] == sessions[k];
  }

  /** The session the `i`th record is for: its position in the store. */
  lemma SessionOfRecord(sessions: seq<Doc<Session>>, classroomId: string, subjectId: string,
                        subjectName: string, att: seq<Attendance>, studentId: string, i: nat)
    returns (k: nat)
    requires i < |HistoryOf(MatchingSessions(sessions, classroomId, subjectId), subjectName, att, studentId)|
    ensures var r := HistoryOf(MatchingSessions(sessions, classroomId, subjectId), subjectName, att, studentId);
      && k < |sessions| && sessions[k].key == r[i].sessionId
      && sessions[k].data.classroomId == classroomId && sessions[k].data.subjectId == subjectId
  {
    var m := MatchingSessions(sessions, classroomId, subjectId);
    MatchingSessionsMembers(sessions, classroomId, subjectId);
    assert m[i] in m;
    k :| 0 <= k < |sessions| && sessions[k] == m[i];
  }

  /** Every session of the classroom and subject has a record. */
  lemma HistoryCoversSessions(sessions: seq<Doc<Session>>, classroomId: string, subjectId: string,
                              subjectName: string, att: seq<Attendance>, studentId: string, r: seq<AttendanceRecord>)
    requires r == HistoryOf(MatchingSessions(sessions, classroomId, subjectId), subjectName, att, studentId)
    ensures forall k | 0 <= k < |sessions| && sessions[k].data.classroomId == classroomId && sessions[k].data.subjectId == subjectId ::
      exists i | 0 <= i < |r| :: r[i].sessionId == sessions[k].key
  {
    forall k | 0 <= k < |sessions| && sessions[k].data.classroomId == classroomId && sessions[k].data.subjectId == subjectId
      ensures exists i | 0 <= i < |r| :: r[i].sessionId == sessions[k].key
    {
      var i := RecordOfSession(sessions, classroomId, subjectId, subjectName, att, studentId, k);
    }
  }

  /** Every record is that of a session of the classroom and subject. */
  lemma HistoryOnlyMatchingSessions(sessions: seq<Doc<Session>>, classroomId: string, subjectId: string,
                                    subjectName: string, att: seq<Attendance>, studentId: string, r: seq<AttendanceRecord>)
    requires r == HistoryOf(MatchingSessions(sessions, classroomId, subjectId), subjectName, att, studentId)
    ensures forall i | 0 <= i < |r| :: exists k | 0 <= k < |sessions| ::
      sessions[k].key == r[i].sessionId && sessions[k].data.classroomId == classroomId && sessions[k].data.subjectId == subjectId
  {
    forall i | 0 <= i < |r|
      ensures exists k | 0 <= k < |sessions| ::
        sessions[k].key == r[i].sessionId && sessions[k].data.classroomId == classroomId && sessions[k].data.subjectId == subjectId
    {
      var k := SessionOfRecord(sessions, classroomId, subjectId, subjectName, att, studentId, i);
    }
  }

  /** No session has two records, when session ids are unique. */
  lemma HistoryDistinctSessions(sessions: seq<Doc<Session>>, classroomId: string, subjectId: string,
                                subjectName: string, att: seq<Attendance>, studentId: string, r: seq<AttendanceRecord>)
    requires UniqueKeys(sessions)
    requires r == HistoryOf(MatchingSessions(sessions, classroomId, subjectId), subjectName, att, studentId)
    ensures forall i, j | 0 <= i < j < |r| :: r[i].sessionId != r[j].sessionId
  {
    MatchingKeepsUniqueKeys(sessions, classroomId, subjectId);
  }

  /** A classroom's history has exactly one record per session of that
      classroom and subject: every such session has a record, every record
      is such a session's, and no session appears twice. */
  lemma HistoryOnePerSession(sessions: seq<Doc<Session>>, classroomId: string, subjectId: string,
                             subjectName: string, att: seq<Attendance>, studentId: string, r: seq<AttendanceRecord>)
    requires UniqueKeys(sessions)
    requires r == HistoryOf(MatchingSessions(sessions, classroomId, subjectId), subjectName, att, studentId)
    ensures
      && (forall k | 0 <= k < |sessions| && sessions[k].data.classroomId == classroomId && sessions[k].data.subjectId == subjectId ::
            exists i | 0 <= i < |r| :: r[i].sessionId == sessions[k].key)
      && (forall i | 0 <= i < |r| :: exists k | 0 <= k < |sessions| ::
            sessions[k].key == r[i].sessionId && sessions[k].data.classroomId == classroomId && sessions[k].data.subjectId == subjectId)
      && (forall i, j | 0 <= i < j < |r| :: r[i].sessionId != r[j].sessionId)
  {
    HistoryDistinctSessions(sessions, classroomId, subjectId, subjectName, att, studentId, r);
    HistoryCoversSessions(sessions, classroomId, subjectId, subjectName, att, studentId, r);
    HistoryOnlyMatchingSessions(sessions, classroomId, subjectId, subjectName, att, studentId, r);
  }

  /** Records ordered by start time, newest first. */
  ghost predicate NewestFirst(rs: seq<AttendanceRecord>) {
    forall i, j | 0 <= i < j < |rs| :: rs[i].startTime >= rs[j].startTime
  }

  /** Inserts `r` after every record that started no later than it: the step
      of a stable sort by descending start time. */
  function InsertByStart(sorted: seq<AttendanceRecord>, r: AttendanceRecord): (res: seq<AttendanceRecord>)
    ensures multiset(res) == multiset(sorted) + multiset{r}
  {
    if sorted == [] then [r]
    else if sorted[0].startTime >= r.startTime then
      assert sorted == [sorted[0]] + sorted[1..];
      [sorted[0]] + InsertByStart(sorted[1..], r)
    else
      [r] + sorted
  }

  lemma {:induction false} InsertKeepsNewestFirst(sorted: seq<AttendanceRecord>, r: AttendanceRecord)
    requires NewestFirst(sorted)
    ensures NewestFirst(InsertByStart(sorted, r))
  {
    if sorted != [] && sorted[0].startTime >= r.startTime {
      var rest := InsertByStart(sorted[1..], r);
      InsertKeepsNewestFirst(sorted[1..], r);
      forall j | 0 <= j < |rest|
        ensures sorted[0].startTime >= rest[j].startTime
      {
        assert rest[j] in multiset(rest);
        if rest[j] != r {
          assert rest[j] in multiset(sorted[1..]);
          var k :| 0 <= k < |sorted[1..]| && sorted[1..][k] == rest[j];
          assert sorted[k + 1] == rest[j];
        }
      }
    }
  }

  /** `sortByDescending { it.startTime }`: newest first, same records. */
  function SortByStart(rs: seq<AttendanceRecord>): (res: seq<AttendanceRecord>)
    ensures NewestFirst(res)
    ensures multiset(res) == multiset(rs)
  {
    if rs == [] then []
    else
      assert rs == rs[..|rs| - 1] + [rs[|rs| - 1]];
      InsertKeepsNewestFirst(SortByStart(rs[..|rs| - 1]), rs[|rs| - 1]);
      InsertByStart(SortByStart(rs[..|rs| - 1]), rs[|rs| - 1])
  }

  /** Number of present records. */
  function CountPresent(rs: seq<AttendanceRecord>): (n: nat)
    ensures n <= |rs|
  {
    if rs == [] then 0
    else (if rs[0].status == Present then 1 else 0) + CountPresent(rs[1..])
  }

  lemma {:induction false} CountPresentAppend(a: seq<AttendanceRecord>, b: seq<AttendanceRecord>)
    ensures CountPresent(a + b) == CountPresent(a) + CountPresent(b)
  {
    if a == [] {
      assert a + b == b;
    } else {
      assert (a + b)[1..] == a[1..] + b;
      CountPresentAppend(a[1..], b);
    }
  }

  /** Taking out the record at `i` takes out its part of the count. */
  lemma {:induction false} CountPresentRemove(b: seq<AttendanceRecord>, i: nat)
    requires i < |b|
    ensures CountPresent(b) == CountPresent(b[..i] + b[i + 1..]) + (if b[i].status == Present then 1 else 0)
  {
    var p, q := b[..i], b[i + 1..];
    var rest := [b[i]] + q;
    assert b == p + rest;
    assert rest[1..] == q;
    CountPresentAppend(p, rest);
    CountPresentAppend(p, q);
  }

  /** Removing the same record from two permutations of each other leaves
      permutations of each other. */
  lemma MultisetTail(a: seq<AttendanceRecord>, b: seq<AttendanceRecord>, i: nat)
    requires multiset(a) == multiset(b) && a != [] && i < |b| && b[i] == a[0]
    ensures multiset(a[1..]) == multiset(b[..i] + b[i + 1..])
  {
    assert a == [a[0]] + a[1..];
    assert multiset(a[1..]) == multiset(a) - multiset{a[0]};
    assert b == b[..i] + [b[i]] + b[i + 1..];
    assert multiset(b[..i] + b[i + 1..]) == multiset(b) - multiset{b[i]};
  }

  /** The present count depends only on which records there are, not on
      their order. */
  lemma {:induction false} CountPresentPermutation(a: seq<AttendanceRecord>, b: seq<AttendanceRecord>)
    requires multiset(a) == multiset(b)
    ensures CountPresent(a) == CountPresent(b)
  {
    if a != [] {
      assert a[0] in multiset(b);
      var i :| 0 <= i < |b| && b[i] == a[0];
      MultisetTail(a, b, i);
      CountPresentPermutation(a[1..], b[..i] + b[i + 1..]);
      CountPresentRemove(b, i);
    }
  }

  /** The summary shown above a history. */
  datatype AttendanceStats = AttendanceStats(totalSessions: nat, attended: nat, absent: nat, percentage: real)

  /** `calculateStats`: every record is either attended or absent, and the
      percentage is attended over total, 0 for an empty history. */
  function CalculateStats(rs: seq<AttendanceRecord>): (st: AttendanceStats)
    ensures st.totalSessions == |rs| && st.attended == CountPresent(rs)
    ensures st.attended + st.absent == st.totalSessions
    ensures 0.0 <= st.percentage <= 100.0
    ensures st.totalSessions == 0 ==> st.percentage == 0.0
    ensures st.percentage == 100.0 <==> rs != [] && forall i | 0 <= i < |rs| :: rs[i].status == Present
  {
    AllPresentCount(rs);
    var total := |rs|;
    var attended := CountPresent(rs);
    AttendanceStats(total, attended, total - attended, Percentage(attended, total))
  }

  lemma {:induction false} AllPresentCount(rs: seq<AttendanceRecord>)
    ensures CountPresent(rs) == |rs| <==> forall i | 0 <= i < |rs| :: rs[i].status == Present
  {
    if rs != [] {
      AllPresentCount(rs[1..]);
      assert forall i | 1 <= i < |rs| :: rs[i] == rs[1..][i - 1];
    }
  }

  /** Sorting a history does not change its summary. */
  lemma StatsIgnoreOrder(rs: seq<AttendanceRecord>)
    ensures CalculateStats(SortByStart(rs)) == CalculateStats(rs)
  {
    var s := SortByStart(rs);
    CountPresentPermutation(s, rs);
    assert |s| == |multiset(s)| == |multiset(rs)| == |rs|;
  }
}
