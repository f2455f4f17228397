/** The teacher's list of running sessions: the teacher's sessions whose
    stored status is "ACTIVE", decoded field by field with defaults, each
    labelled by its attendance window, with a close button that reloads the
    list on success. */
module TeacherActiveSessions {
  import opened Common
  import opened Models
  import opened Store
  import Repository

  /** A session document as the store hands it back: any field may be
      missing. The status is stored under its name. */
  datatype RawSessionDoc = RawSessionDoc(
    teacherId: Option<string>,
    subjectId: Option<string>,
    classroomId: Option<string>,
    date: Option<string>,
    startTime: Option<int>,
    endTime: Option<int>,
    status: Option<string>,
    wifiSSID: Option<string>,
    wifiBSSID: Option<string>,
    attendanceWindow: Option<bool>)

  /** The fields a stored session has. */
  function EncodeSession(s: Session): (raw: RawSessionDoc)
    ensures raw.status == Some(s.status.Name())
  {
    RawSessionDoc(Some(s.teacherId), Some(s.subjectId), Some(s.classroomId), Some(s.date), Some(s.startTime),
                  Some(s.endTime), Some(s.status.Name()), Some(s.wifiSSID), Some(s.wifiBSSID), Some(s.attendanceWindow))
  }

  function StringOr(x: Option<string>): string {
    if x.Some? then x.value else ""
  }

  function IntOr(x: Option<int>): int {
    if x.Some? then x.value else 0
  }

  /** Decoding one document of the query: the document id becomes the id, a
      missing field takes its default, the creation time is the moment of
      decoding (it is not read back), and a status that is not a status name
      makes decoding fail, which aborts the whole load. */
  function DecodeSession(key: string, raw: RawSessionDoc, now: int): (r: Option<Session>)
    ensures r.Some? <==> raw.status.None? || raw.status.value == "ACTIVE" || raw.status.value == "CLOSED"
    ensures r.Some? ==> r.value.id == key && r.value.createdAt == now
    ensures r.Some? && raw.status.None? ==> r.value.status == Active
    ensures r.Some? && raw.attendanceWindow.None? ==> !r.value.attendanceWindow
  {
    var statusName := if raw.status.Some? then raw.status.value else "ACTIVE";
    match SessionStatusValueOf(statusName)
    case None => None
    case Some(status) =>
      Some(Session(key, StringOr(raw.teacherId), StringOr(raw.subjectId), StringOr(raw.classroomId), StringOr(raw.date),
                   IntOr(raw.startTime), IntOr(raw.endTime), status, StringOr(raw.wifiSSID), StringOr(raw.wifiBSSID),
                   if raw.attendanceWindow.Some? then raw.attendanceWindow.value else false, now))
  }

  /** Decoding what was stored gives the stored session back, under its
      document id. */
  lemma DecodeEncode(key: string, s: Session, now: int)
    ensures DecodeSession(key, EncodeSession(s), now) == Some(s.(id := key, createdAt := now))
  {
  }

  /** A document with every field missing decodes to the defaults. */
  lemma DecodeMissingFields(key: string, now: int)
    ensures DecodeSession(key, RawSessionDoc(None, None, None, None, None, None, None, None, None, None), now)
         == Some(Session(key, "", "", "", "", 0, 0, Active, "", "", false, now))
  {
  }

  /** The teacher's active sessions as the list decodes them, in store
      order. */
  function ActiveListFor(sessions: seq<Doc<Session>>, teacherId: string, now: int): (r: seq<Session>)
    ensures |r| <= |sessions|
    ensures forall s | s in r :: exists k | 0 <= k < |sessions| ::
      && sessions[k].data.teacherId == teacherId && sessions[k].data.status == Active
      && s == sessions[k].data.(id := sessions[k].key, createdAt := now)
    ensures forall k | 0 <= k < |sessions| && sessions[k].data.teacherId == teacherId && sessions[k].data.status == Active ::
      sessions[k].data.(id := sessions[k].key, createdAt := now) in r
  {
    if sessions == [] then []
    else
      var n := |sessions| - 1;
      var d := sessions[n];
      var init := ActiveListFor(sessions[..n], teacherId, now);
      assert forall k | 0 <= k < n :: sessions[..n][k] == sessions[k];
      if d.data.teacherId == teacherId && d.data.status == Active then init + [d.data.(id := d.key, createdAt := now)]
      else init
  }

  /** Once a session is closed it is not in any teacher's list. */
  lemma ClosedSessionDropsOut(sessions: seq<Doc<Session>>, sessionId: string, teacherId: string, now: int)
    ensures forall s | s in ActiveListFor(Update(sessions, sessionId, Repository.ClosedSession), teacherId, now) :: s.id != sessionId
  {
    var u := Update(sessions, sessionId, Repository.ClosedSession);
    forall s | s in ActiveListFor(u, teacherId, now) ensures s.id != sessionId {
      var k :| 0 <= k < |u| && u[k].data.teacherId == teacherId && u[k].data.status == Active
               && s == u[k].data.(id := u[k].key, createdAt := now);
    }
  }

  /** The status line of a row. */
  function WindowLabel(s: Session): (text: string)
    ensures text == "Active" <==> s.attendanceWindow
    ensures text == "Active" || text == "Window Closed"
  {
    if s.attendanceWindow then "Active" else "Window Closed"
  }

  /** A freshly created session reads "Active"; a closed one "Window Closed". */
  lemma LabelsFollowLifecycle(sessionId: string, teacherId: string, subjectId: string, classroomId: string, date: string,
                              startTime: int, endTime: int, ssid: string, bssid: string, now: int, s: Session)
    ensures WindowLabel(Repository.NewSession(sessionId, teacherId, subjectId, classroomId, date, startTime, endTime,
                                              ssid, bssid, now)) == "Active"
    ensures WindowLabel(Repository.ClosedSession(s)) == "Window Closed"
  {
  }

  class TeacherActiveSessionsScreen {
    var teacherId: string
    /** The sessions on screen. */
    var shown: seq<Session>

    constructor(teacherId: string)
      ensures this.teacherId == teacherId && shown == []
    {
      this.teacherId := teacherId;
      shown := [];
    }

    /** `loadActiveSessions`: the teacher's sessions stored as active, each
        decoded from its document. */
    method LoadActiveSessions(repo: Repository.FirebaseRepository, now: int)
      modifies this
      ensures teacherId == old(teacherId)
      ensures shown == ActiveListFor(repo.sessions, teacherId, now)
    {
      var list: seq<Session> := [];
      var i := 0;
      while i < |repo.sessions|
        invariant 0 <= i <= |repo.sessions|
        invariant teacherId == old(teacherId)
        invariant list == ActiveListFor(repo.sessions[..i], teacherId, now)
      {
        var doc := repo.sessions[i];
        assert repo.sessions[..i + 1][..i] == repo.sessions[..i];
        if doc.data.teacherId == teacherId && doc.data.status.Name() == "ACTIVE" {
          DecodeEncode(doc.key, doc.data, now);
          var decoded := DecodeSession(doc.key, EncodeSession(doc.data), now);
          list := list + [decoded.value];
        }
        i := i + 1;
      }
      assert repo.sessions[..i] == repo.sessions;
      shown := list;
    }

    /** `closeSession` from a row: the list is reloaded only when closing
        succeeded, and then no longer holds that session. */
    method CloseSession(repo: Repository.FirebaseRepository, session: Session, now: int) returns (o: Outcome)
      requires repo.Valid()
      modifies this, repo
      ensures repo.Valid()
      ensures teacherId == old(teacherId)
      ensures !HasKey(old(repo.sessions), session.id) ==>
        && o == Fail(Repository.NoDocumentToUpdate) && shown == old(shown)
        && repo.sessions == old(repo.sessions) && repo.activeSessions == old(repo.activeSessions)
      ensures HasKey(old(repo.sessions), session.id) ==>
        && o == Pass
        && repo.sessions == Update(old(repo.sessions), session.id, Repository.ClosedSession)
        && repo.activeSessions == Delete(old(repo.activeSessions), session.id)
        && shown == ActiveListFor(repo.sessions, teacherId, now)
        && forall s | s in shown :: s.id != session.id
      ensures repo.attendance == old(repo.attendance) && repo.students == old(repo.students)
      ensures repo.teachers == old(repo.teachers) && repo.classrooms == old(repo.classrooms)
      ensures repo.subjects == old(repo.subjects)
    {
      o := repo.CloseSession(session.id);
      if o.Pass? {
        ClosedSessionDropsOut(old(repo.sessions), session.id, teacherId, now);
        LoadActiveSessions(repo, now);
      }
    }
  }
}
