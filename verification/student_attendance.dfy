/** The student's marking screen: the session is loaded and the device's
    network checked against the session's recorded network before the camera
    opens; a captured selfie is sent to the face service and a present
    record is added only when the service names this student with enough
    confidence. Images are opaque strings (their Base64 text). */
module StudentAttendance {
  import opened Common
  import opened Models
  import opened Strings
  import opened Store
  import opened WifiUtils
  import opened Ledger
  import Repository
  import CreateSession
  import SessionAttendanceList

  /** The least confidence at which a recognition is accepted. */
  const ConfidenceThreshold: real := 0.7
  /** The face service's labels for "no face in the picture" and "a face
      nobody is registered with". */
  const NoFaceLabel: string := "no_face"
  const UnknownLabel: string := "unknown"
  const UnknownSubject: string := "Unknown Subject"
  const LoadErrorPrefix: string := "Error loading session: "
  const WifiError: string := "You must be connected to the classroom WiFi to mark attendance."
  const NoImage: string := "No image captured"
  const VerificationErrorPrefix: string := "Verification error: "
  const RejectionPrefix: string := "Face verification failed.\n"

  /** The recognition gate: the service names this student, at or above the
      threshold. */
  predicate Accepts(response: PredictResponse, studentId: string): (ok: bool)
    ensures ok ==> response.predictedLabel == studentId && StoredScore(response.confidence) >= 70
    ensures response.confidence < ConfidenceThreshold ==> !ok
  {
    response.predictedLabel == studentId && response.confidence >= ConfidenceThreshold
  }

  /** The threshold is inclusive, and nothing below it is accepted, whatever
      the label. */
  lemma ThresholdInclusive(studentId: string, confidence: real, predicted: string)
    ensures Accepts(PredictResponse(studentId, ConfidenceThreshold), studentId)
    ensures confidence < ConfidenceThreshold ==> !Accepts(PredictResponse(predicted, confidence), studentId)
    ensures predicted != studentId ==> !Accepts(PredictResponse(predicted, confidence), studentId)
  {
  }

  /** Why a recognition was refused, by the label the service gave. */
  function RejectionReason(name: string): (reason: string)
    ensures name == NoFaceLabel ==> reason == "No face detected. Please ensure good lighting."
    ensures name == UnknownLabel ==> reason == "Face not recognized."
    ensures name != NoFaceLabel && name != UnknownLabel ==> reason == "Face mismatch. Detected: " + name
  {
    if name == NoFaceLabel then "No face detected. Please ensure good lighting."
    else if name == UnknownLabel then "Face not recognized."
    else "Face mismatch. Detected: " + name
  }

  /** Different labels other than the two reserved ones give different
      reasons. */
  lemma MismatchReasonsDistinct(a: string, b: string)
    requires a != NoFaceLabel && a != UnknownLabel && b != NoFaceLabel && b != UnknownLabel
    requires a != b
    ensures RejectionReason(a) != RejectionReason(b)
  {
    var p := "Face mismatch. Detected: ";
    assert RejectionReason(a) == p + a && RejectionReason(b) == p + b;
    if |a| == |b| {
      var i :| 0 <= i < |a| && a[i] != b[i];
      assert (p + a)[|p| + i] == a[i];
      assert (p + b)[|p| + i] == b[i];
    }
  }

  /** No mismatch reads like a missing or an unknown face. */
  lemma MismatchReasonIsNotMissingFace(a: string)
    requires a != NoFaceLabel && a != UnknownLabel
    ensures RejectionReason(a) != RejectionReason(NoFaceLabel)
    ensures RejectionReason(a) != RejectionReason(UnknownLabel)
  {
    var r := RejectionReason(a);
    assert r[5] == 'm';
    assert RejectionReason(NoFaceLabel)[5] != 'm';
    assert RejectionReason(UnknownLabel)[5] != 'm';
  }

  /** The stored score: the confidence as a whole percentage, rounded toward
      zero. */
  function StoredScore(confidence: real): (n: int)
    ensures 0.0 <= confidence <= 1.0 ==> 0 <= n <= 100
    ensures confidence >= ConfidenceThreshold ==> n >= 70
  {
    TruncateToInt(confidence * 100.0)
  }

  /** `markAttendanceWithSubject`'s document: present, marked by the
      student, not overridden, the selfie under `selfieUrl` and the score as a
      whole percentage. */
  function SelfieRecord(sessionId: string, studentId: string, classroomId: string, subjectId: string,
                        subjectName: string, image: string, confidence: real, now: int): (r: Attendance)
    ensures IsRecordOf(r, sessionId, studentId)
    ensures r.classroomId == classroomId && r.subjectId == subjectId && r.subjectName == subjectName
    ensures r.status == Present && r.markedBy == ByStudent && r.overriddenBy == "" && r.markedAt == now
    ensures r.selfieUrl == image && r.selfieBase64.None?
    ensures r.verificationScore == Some(StoredScore(confidence) as real)
  {
    Attendance("", sessionId, studentId, classroomId, subjectId, subjectName, Present, now, ByStudent, image, "",
               None, Some(StoredScore(confidence) as real))
  }

  /** A record written by this screen keeps its selfie where the teacher's
      list looks for it. */
  lemma SelfieRecordViewable(sessionId: string, studentId: string, classroomId: string, subjectId: string,
                             subjectName: string, image: string, confidence: real, now: int)
    ensures SessionAttendanceList.SelfieViewable(
              SelfieRecord(sessionId, studentId, classroomId, subjectId, subjectName, image, confidence, now))
            <==> image != ""
  {
  }

  /** Every accepted submission appends without looking, so two accepted
      submissions leave two records for the student in the session. */
  lemma {:induction false} RepeatedSubmissionsDuplicate(att: seq<Attendance>, r1: Attendance, r2: Attendance,
                                                        sessionId: string, studentId: string)
    requires IsRecordOf(r1, sessionId, studentId) && IsRecordOf(r2, sessionId, studentId)
    ensures RecordCount(att + [r1] + [r2], sessionId, studentId) == RecordCount(att, sessionId, studentId) + 2
    ensures !AtMostOnePerPair(att + [r1] + [r2])
  {
    assert (att + [r1] + [r2])[..|att| + 1] == att + [r1];
    assert (att + [r1])[..|att|] == att;
    assert (att + [r1] + [r2])[|att|] == r1 && (att + [r1] + [r2])[|att| + 1] == r2;
  }

  /** A student whose device reports the same network the teacher's device
      reported when the session was created passes the session's network
      check, provided the SSID and BSSID carry no whitespace at either end. */
  lemma StudentOnTeacherNetworkPasses(classroom: Option<Classroom>, subject: Option<Subject>, startTime: int,
                                      endTime: int, teacher: PlatformSnapshot, student: PlatformSnapshot,
                                      sessionId: string, teacherId: string, today: string, now: int)
    requires CreateSession.DecideCreate(classroom, subject, startTime, endTime, teacher).Create?
    requires CurrentWiFiInfo(student) == CurrentWiFiInfo(teacher)
    requires Trim(CurrentWiFiInfo(teacher).value.ssid) == CurrentWiFiInfo(teacher).value.ssid
    requires Trim(CurrentWiFiInfo(teacher).value.bssid) == CurrentWiFiInfo(teacher).value.bssid
    ensures var d := CreateSession.DecideCreate(classroom, subject, startTime, endTime, teacher);
      var s := Repository.NewSession(sessionId, teacherId, d.subjectId, d.classroomId, today, d.startTime, d.endTime,
                                     d.wifiSSID, d.wifiBSSID, now);
      VerifyClassroomWiFi(student, s.wifiSSID, s.wifiBSSID)
  {
    VerifyAcceptsReportedIdentity(student);
  }

  class StudentAttendanceScreen {
    var studentId: string
    var sessionId: string
    /** The session's classroom, subject and subject name, kept for the
        record. */
    var classroomId: string
    var subjectId: string
    var subjectName: string
    /** Whether the camera was opened. */
    var cameraStarted: bool
    /** The captured selfie, if any. */
    var captured: Option<string>
    /** The session, as loaded, and the device reading for which the camera
        was opened. */
    ghost var openedFor: Option<(Session, PlatformSnapshot)>

    /** A selfie exists only once the camera is open, and the camera is open
        exactly when it was opened for this screen's session. Only
        `LoadSessionDetails` sets `openedFor`, and only on a reading that
        passes the session's network check. */
    ghost predicate Valid()
      reads this
    {
      && (captured.Some? ==> cameraStarted)
      && (cameraStarted <==> openedFor.Some?)
      && (openedFor.Some? ==> openedFor.value.0.id == sessionId)
    }

    /** The reading the camera was opened for passes the recorded session's
        network check. Kept apart from `Valid`, and reading `openedFor`
        alone, so that the screen's other actions preserve it by leaving
        that field as it is. */
    ghost predicate OpenedOnNetwork()
      reads this`openedFor
    {
      openedFor.Some? ==>
        VerifyClassroomWiFi(openedFor.value.1, openedFor.value.0.wifiSSID, openedFor.value.0.wifiBSSID)
    }

    constructor(studentId: string, sessionId: string)
      ensures Valid() && OpenedOnNetwork()
      ensures this.studentId == studentId && this.sessionId == sessionId
      ensures classroomId == "" && subjectId == "" && subjectName == ""
      ensures !cameraStarted && captured.None?
    {
      this.studentId, this.sessionId := studentId, sessionId;
      classroomId, subjectId, subjectName := "", "", "";
      cameraStarted, captured := false, None;
      openedFor := None;
    }

    /** `loadSessionDetails`: a missing session ends the screen; otherwise the
        session's classroom and subject are kept (before the network is
        checked), the subject's name is looked up, and the camera opens only
        when the device is on the network recorded in the session. Camera
        permission is taken as granted. */
    method LoadSessionDetails(repo: Repository.FirebaseRepository, p: PlatformSnapshot) returns (o: Outcome)
      requires Valid() && OpenedOnNetwork()
      modifies this
      ensures studentId == old(studentId) && sessionId == old(sessionId) && captured == old(captured)
      ensures !HasKey(repo.sessions, sessionId) ==>
        && o == Fail(LoadErrorPrefix + Repository.SessionNotFound)
        && classroomId == old(classroomId) && subjectId == old(subjectId) && subjectName == old(subjectName)
        && cameraStarted == old(cameraStarted) && openedFor == old(openedFor)
      ensures HasKey(repo.sessions, sessionId) ==>
        var s := Get(repo.sessions, sessionId).value;
        && classroomId == s.classroomId && subjectId == s.subjectId
        && subjectName == (if HasKey(repo.subjects, s.subjectId) then Get(repo.subjects, s.subjectId).value.name
                           else UnknownSubject)
        && (VerifyClassroomWiFi(p, s.wifiSSID, s.wifiBSSID) ==>
              o == Pass && cameraStarted && openedFor == Some((s.(id := sessionId), p)))
        && (!VerifyClassroomWiFi(p, s.wifiSSID, s.wifiBSSID) ==>
              o == Fail(WifiError) && cameraStarted == old(cameraStarted) && openedFor == old(openedFor))
      ensures Valid() && OpenedOnNetwork()
    {
      var r := repo.GetSession(sessionId);
      if r.Failure? {
        return Fail(LoadErrorPrefix + r.error);
      }
      var session := r.value;
      classroomId := session.classroomId;
      subjectId := session.subjectId;
      subjectName := match Get(repo.subjects, session.subjectId)
        case Some(subject) => subject.name
        case None => UnknownSubject;
      var onNetwork := VerifyClassroomWiFi(p, session.wifiSSID, session.wifiBSSID);
      o := OpenCamera(session, p, onNetwork);
    }

    /** The network gate of `loadSessionDetails`: the camera opens for the
        loaded session only when the device is on its recorded network;
        `onNetwork` is the answer of the network check for reading `p`. */
    method OpenCamera(session: Session, p: PlatformSnapshot, onNetwork: bool) returns (o: Outcome)
      modifies this
      ensures onNetwork ==> o == Pass && cameraStarted && openedFor == Some((session, p))
      ensures !onNetwork ==> o == Fail(WifiError) && cameraStarted == old(cameraStarted) && openedFor == old(openedFor)
      ensures studentId == old(studentId) && sessionId == old(sessionId) && captured == old(captured)
      ensures classroomId == old(classroomId) && subjectId == old(subjectId) && subjectName == old(subjectName)
    {
      if !onNetwork {
        return Fail(WifiError);
      }
      cameraStarted := true;
      openedFor := Some((session, p));
      o := Pass;
    }

    /** The capture button: without an open camera nothing happens;
        otherwise the picture taken becomes the captured selfie. */
    method CaptureSelfie(image: string)
      requires Valid()
      modifies this
      ensures Valid()
      ensures captured == if cameraStarted then Some(image) else old(captured)
      ensures studentId == old(studentId) && sessionId == old(sessionId) && cameraStarted == old(cameraStarted)
      ensures classroomId == old(classroomId) && subjectId == old(subjectId) && subjectName == old(subjectName)
      ensures openedFor == old(openedFor)
    {
      if cameraStarted {
        captured := Some(image);
      }
    }

    /** The retake button, shown only after a capture, drops the captured
        selfie; the camera is already open then and stays open. */
    method Retake()
      requires Valid()
      modifies this
      ensures Valid()
      ensures captured.None?
      ensures studentId == old(studentId) && sessionId == old(sessionId) && cameraStarted == old(cameraStarted)
      ensures classroomId == old(classroomId) && subjectId == old(subjectId) && subjectName == old(subjectName)
      ensures openedFor == old(openedFor)
    {
      captured := None;
    }

    /** `submitAttendance`: without a selfie nothing is asked of the face
        service and nothing is written; otherwise the service's answer
        (`prediction`) decides, and only an accepted answer adds a record,
        through a direct `add` to the attendance collection. A record is
        therefore written only after both gates: the network check of this
        screen's session and the face check. */
    method SubmitAttendance(repo: Repository.FirebaseRepository, prediction: Result<PredictResponse>, now: int)
      returns (o: Outcome)
      requires Valid() && OpenedOnNetwork() && repo.Valid()
      modifies repo
      ensures repo.Valid()
      ensures repo.attendance != old(repo.attendance) ==> o == Pass
      ensures o == Pass ==>
        && cameraStarted && openedFor.Some? && openedFor.value.0.id == sessionId
        && VerifyClassroomWiFi(openedFor.value.1, openedFor.value.0.wifiSSID, openedFor.value.0.wifiBSSID)
        && prediction.Success? && Accepts(prediction.value, studentId)
      ensures captured.None? ==> o == Fail(NoImage) && repo.attendance == old(repo.attendance)
      ensures captured.Some? && prediction.Failure? ==>
        o == Fail(VerificationErrorPrefix + prediction.error) && repo.attendance == old(repo.attendance)
      ensures captured.Some? && prediction.Success? && !Accepts(prediction.value, studentId) ==>
        && o == Fail(RejectionPrefix + RejectionReason(prediction.value.predictedLabel))
        && repo.attendance == old(repo.attendance)
      ensures captured.Some? && prediction.Success? && Accepts(prediction.value, studentId) ==>
        && o == Pass
        && repo.attendance == old(repo.attendance) + [SelfieRecord(sessionId, studentId, classroomId, subjectId,
                                                                   subjectName, captured.value,
                                                                   prediction.value.confidence, now)]
      ensures repo.teachers == old(repo.teachers) && repo.students == old(repo.students)
      ensures repo.classrooms == old(repo.classrooms) && repo.subjects == old(repo.subjects)
      ensures repo.sessions == old(repo.sessions) && repo.activeSessions == old(repo.activeSessions)
    {
      if captured.None? {
        return Fail(NoImage);
      }
      if prediction.Failure? {
        return Fail(VerificationErrorPrefix + prediction.error);
      }
      var response := prediction.value;
      if !Accepts(response, studentId) {
        return Fail(RejectionPrefix + RejectionReason(response.predictedLabel));
      }
      repo.attendance := repo.attendance + [SelfieRecord(sessionId, studentId, classroomId, subjectId, subjectName,
                                                         captured.value, response.confidence, now)];
      o := Pass;
    }
  }

  /** An accepted submission on a loaded screen writes a present record for
      this student in this session that the session's list then shows as
      present, unless an earlier record for the pair hides it. */
  lemma AcceptedSubmissionShowsPresent(att: seq<Attendance>, sessionId: string, studentId: string, classroomId: string,
                                       subjectId: string, subjectName: string, image: string, confidence: real, now: int)
    requires RecordCount(att, sessionId, studentId) == 0
    ensures var att1 := att + [SelfieRecord(sessionId, studentId, classroomId, subjectId, subjectName, image, confidence, now)];
      && RecordOrAbsent(att1, sessionId, studentId).status == Present
      && HasPresentRecord(att1, sessionId, studentId)
  {
    var r := SelfieRecord(sessionId, studentId, classroomId, subjectId, subjectName, image, confidence, now);
    var att1 := att + [r];
    RecordCountZero(att, sessionId, studentId);
    assert att1[|att|] == r;
    assert forall j | 0 <= j < |att| :: att1[j] == att[j] && !IsRecordOf(att1[j], sessionId, studentId);
  }
}
