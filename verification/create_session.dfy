/** The teacher's session-creation screen: a classroom (picked by hand or
    matched to the current network), one of its subjects and a start and end
    time are chosen; pressing "create" runs a fixed chain of checks and, when
    all pass, writes the session with the device's own network identity. */
module CreateSession {
  import opened Common
  import opened Models
  import opened Strings
  import opened Store
  import opened WifiUtils
  import Repository

  const NeedClassroom: string := "Please select a classroom"
  const NeedSubject: string := "Please select a subject"
  const NeedTimes: string := "Please select start and end time"
  const EndNotAfterStart: string := "End time must be after start time"
  const NeedWifi: string := "Please connect to classroom WiFi"
  /** The subject button's refusal without a classroom. */
  const NeedClassroomFirst: string := "Please select classroom first"
  const NoSubjects: string := "No subjects found for this classroom"

  /** What pressing "create" leads to: a refusal with a message, the
      wrong-network dialog (the connected SSID and the classroom's
      configured SSID), or the repository call with these arguments. */
  datatype CreateDecision =
    | Refused(message: string)
    | WrongNetwork(connectedSsid: string, classroomSsid: string)
    | Create(subjectId: string, classroomId: string, startTime: int, endTime: int, wifiSSID: string, wifiBSSID: string)

  /** What pressing the subject button leads to: a toast, nothing at all
      (the subject fetch failed), or the dialog and the subject picked in
      it. */
  datatype SubjectPick = Toast(message: string) | NothingShown | Picked(subject: Subject)

  /** `createSession`'s checks, in order: classroom, subject, both times
      set, end after start, a current network, the classroom's network. The
      first that fails decides. Both network reads see the same snapshot. */
  function DecideCreate(classroom: Option<Classroom>, subject: Option<Subject>, startTime: int, endTime: int,
                        p: PlatformSnapshot): (d: CreateDecision)
    ensures d.Create? <==>
      && classroom.Some? && subject.Some?
      && startTime != 0 && endTime != 0 && startTime < endTime
      && VerifyClassroomWiFi(p, classroom.value.wifiSSID, classroom.value.wifiBSSID)
    ensures d.Create? ==>
      && d.classroomId == classroom.value.id && d.subjectId == subject.value.id
      && d.startTime == startTime && d.endTime == endTime
      && CurrentWiFiInfo(p) == Some(WiFiInfo(d.wifiSSID, d.wifiBSSID, true))
  {
    if classroom.None? then Refused(NeedClassroom)
    else if subject.None? then Refused(NeedSubject)
    else if startTime == 0 || endTime == 0 then Refused(NeedTimes)
    else if endTime <= startTime then Refused(EndNotAfterStart)
    else match CurrentWiFiInfo(p)
      case None => Refused(NeedWifi)
      case Some(info) =>
        if !VerifyClassroomWiFi(p, classroom.value.wifiSSID, classroom.value.wifiBSSID) then
          WrongNetwork(info.ssid, classroom.value.wifiSSID)
        else Create(subject.value.id, classroom.value.id, startTime, endTime, info.ssid, info.bssid)
  }

  /** The first failing check names the refusal: a missing classroom is
      reported even when everything else is missing too, and so on down the
      chain; the network is only looked at once the form is complete. */
  lemma RefusalFollowsCheckOrder(classroom: Option<Classroom>, subject: Option<Subject>, startTime: int, endTime: int,
                                 p: PlatformSnapshot)
    ensures var d := DecideCreate(classroom, subject, startTime, endTime, p);
      && (classroom.None? ==> d == Refused(NeedClassroom))
      && (classroom.Some? && subject.None? ==> d == Refused(NeedSubject))
      && (classroom.Some? && subject.Some? && (startTime == 0 || endTime == 0) ==> d == Refused(NeedTimes))
      && (classroom.Some? && subject.Some? && startTime != 0 && endTime != 0 && endTime <= startTime ==>
            d == Refused(EndNotAfterStart))
      && (classroom.Some? && subject.Some? && startTime != 0 && endTime != 0 && startTime < endTime ==>
            && (CurrentWiFiInfo(p).None? ==> d == Refused(NeedWifi))
            && (CurrentWiFiInfo(p).Some? && !VerifyClassroomWiFi(p, classroom.value.wifiSSID, classroom.value.wifiBSSID) ==>
                  d == WrongNetwork(CurrentWiFiInfo(p).value.ssid, classroom.value.wifiSSID)))
  {
  }

  /** The session written on success carries the device's identity, not the
      classroom's configuration: an SSID without quotes, a lower-case BSSID,
      both equal up to case to the classroom's cleaned values. */
  lemma CreatedSessionCarriesDeviceIdentity(classroom: Option<Classroom>, subject: Option<Subject>, startTime: int,
                                            endTime: int, p: PlatformSnapshot, sessionId: string, teacherId: string,
                                            today: string, now: int)
    requires DecideCreate(classroom, subject, startTime, endTime, p).Create?
    ensures var d := DecideCreate(classroom, subject, startTime, endTime, p);
      var s := Repository.NewSession(sessionId, teacherId, d.subjectId, d.classroomId, today, d.startTime, d.endTime,
                                     d.wifiSSID, d.wifiBSSID, now);
      && '"' !in s.wifiSSID && s.wifiSSID != ""
      && Lower(s.wifiBSSID) == s.wifiBSSID
      && EqualsIgnoreCase(s.wifiSSID, ExpectedSsid(classroom.value.wifiSSID))
      && EqualsIgnoreCase(s.wifiBSSID, ExpectedBssid(classroom.value.wifiBSSID))
      && s.status == Active && s.attendanceWindow
  {
    LowerIdempotent(p.connectionInfo.value.bssid.value);
  }

  /** The comparison auto-selection makes: trimmed SSIDs equal ignoring case
      and trimmed, lower-cased BSSIDs equal. Quotes are not removed here. */
  predicate NetworkMatches(c: Classroom, info: WiFiInfo): (ok: bool)
    ensures ok <==> Lower(Trim(c.wifiSSID)) == Lower(Trim(info.ssid)) && Lower(Trim(c.wifiBSSID)) == Lower(Trim(info.bssid))
  {
    EqualsIgnoreCaseIsLowerEquality(Trim(c.wifiSSID), Trim(info.ssid));
    && EqualsIgnoreCase(Trim(c.wifiSSID), Trim(info.ssid))
    && Lower(Trim(c.wifiBSSID)) == Lower(Trim(info.bssid))
  }

  /** Position of the first element in list order that satisfies `f`. */
  function FirstWhere<T>(xs: seq<T>, f: T -> bool): (r: Option<nat>)
    ensures r.Some? ==> r.value < |xs| && f(xs[r.value])
    ensures r.Some? ==> forall j | 0 <= j < r.value :: !f(xs[j])
    ensures r.None? <==> forall k | 0 <= k < |xs| :: !f(xs[k])
  {
    if xs == [] then None
    else if f(xs[0]) then Some(0)
    else
      assert forall k | 1 <= k < |xs| :: xs[k] == xs[1..][k - 1];
      match FirstWhere(xs[1..], f)
      case None => None
      case Some(k) => Some(k + 1)
  }

  /** `classrooms.find { … }`: the position of the first classroom in list
      order whose network matches, or nothing when none does. */
  function FindMatchingClassroom(classrooms: seq<Classroom>, info: WiFiInfo): (r: Option<nat>)
    ensures r.Some? ==> r.value < |classrooms|
  {
    FirstWhere(classrooms, c => NetworkMatches(c, info))
  }

  /** Auto-selection finds the first matching classroom, and finds none
      exactly when no classroom matches. */
  lemma FindMatchingClassroomIsFirstMatch(classrooms: seq<Classroom>, info: WiFiInfo)
    ensures var r := FindMatchingClassroom(classrooms, info);
      && (r.Some? ==> NetworkMatches(classrooms[r.value], info))
      && (r.Some? ==> forall j | 0 <= j < r.value :: !NetworkMatches(classrooms[j], info))
      && (r.None? <==> forall k | 0 <= k < |classrooms| :: !NetworkMatches(classrooms[k], info))
  {
  }

  /** The classroom selected after auto-selection: when the teacher's
      classrooms load and one matches the current network, the first such;
      after a failed load or without a match, the selection as it was. */
  function AutoSelection(current: Option<Classroom>, classrooms: Result<seq<Classroom>>, info: WiFiInfo)
    : (r: Option<Classroom>)
    ensures classrooms.Failure? ==> r == current
    ensures r != current ==> r.Some? && r.value in classrooms.value
  {
    if classrooms.Failure? then current
    else match FindMatchingClassroom(classrooms.value, info)
      case None => current
      case Some(k) => Some(classrooms.value[k])
  }

  /** When the classroom at position `k` is the first that matches the
      current network, auto-selection settles on it. */
  lemma AutoSelectionPicksFirstMatch(current: Option<Classroom>, classrooms: seq<Classroom>, info: WiFiInfo, k: nat)
    requires k < |classrooms| && NetworkMatches(classrooms[k], info)
    requires forall j | 0 <= j < k :: !NetworkMatches(classrooms[j], info)
    ensures AutoSelection(current, Success(classrooms), info) == Some(classrooms[k])
  {
    FindMatchingClassroomIsFirstMatch(classrooms, info);
  }

  /** When no classroom matches, the selection stays as it was. */
  lemma AutoSelectionWithoutMatch(current: Option<Classroom>, classrooms: seq<Classroom>, info: WiFiInfo)
    requires forall k | 0 <= k < |classrooms| :: !NetworkMatches(classrooms[k], info)
    ensures AutoSelection(current, Success(classrooms), info) == current
  {
    FindMatchingClassroomIsFirstMatch(classrooms, info);
  }

  lemma TrimKeepsOut(s: string, c: char)
    requires c !in s
    ensures c !in Trim(s)
  {
    var t := TrimStart(s);
    TrimStartIsSuffix(s);
    TrimEndIsPrefix(t);
    assert forall x | x in t :: x in s;
    assert forall x | x in TrimEnd(t) :: x in t;
  }

  /** A classroom matched to the current network also passes the creation
      check on that network, as long as its configured SSID holds no quote
      and the device's SSID and BSSID have no whitespace at either end. */
  lemma MatchedClassroomPassesCreateCheck(p: PlatformSnapshot, c: Classroom)
    requires CurrentWiFiInfo(p).Some? && NetworkMatches(c, CurrentWiFiInfo(p).value)
    requires '"' !in c.wifiSSID
    requires Trim(CurrentWiFiInfo(p).value.ssid) == CurrentWiFiInfo(p).value.ssid
    requires Trim(CurrentWiFiInfo(p).value.bssid) == CurrentWiFiInfo(p).value.bssid
    ensures VerifyClassroomWiFi(p, c.wifiSSID, c.wifiBSSID)
  {
    var info := CurrentWiFiInfo(p).value;
    TrimKeepsOut(c.wifiSSID, '"');
    assert ExpectedSsid(c.wifiSSID) == Trim(c.wifiSSID);
    LowerIdempotent(Trim(c.wifiBSSID));
    EqualsIgnoreCaseIsLowerEquality(info.bssid, ExpectedBssid(c.wifiBSSID));
  }

  /** The subjects the subject dialog offers for a classroom: the subject
      documents its stored classroom lists, in list order, each under the
      listed id; nothing when the classroom document is missing. */
  function SubjectChoices(subjects: seq<Doc<Subject>>, classrooms: seq<Doc<Classroom>>, classroomId: string): (r: seq<Subject>)
    ensures !HasKey(classrooms, classroomId) ==> r == []
    ensures forall s | s in r :: s.id in Get(classrooms, classroomId).value.subjects
  {
    match Get(classrooms, classroomId)
    case None => []
    case Some(c) => Repository.ListedSubjects(subjects, c.subjects)
  }

  class CreateSessionScreen {
    var teacherId: string
    var selectedClassroom: Option<Classroom>
    var selectedSubject: Option<Subject>
    var startTime: int
    var endTime: int

    constructor(teacherId: string)
      ensures this.teacherId == teacherId
      ensures selectedClassroom.None? && selectedSubject.None? && startTime == 0 && endTime == 0
    {
      this.teacherId := teacherId;
      selectedClassroom, selectedSubject := None, None;
      startTime, endTime := 0, 0;
    }

    /** The selected subject is one the selected classroom offers. */
    predicate SubjectOfClassroom(repo: Repository.FirebaseRepository)
      reads this, repo
    {
      selectedSubject.Some? ==>
        selectedClassroom.Some? && selectedSubject.value in SubjectChoices(repo.subjects, repo.classrooms, selectedClassroom.value.id)
    }

    /** The time pickers: each stores the chosen instant. */
    method PickStartTime(t: int)
      modifies this
      ensures startTime == t
      ensures endTime == old(endTime) && selectedClassroom == old(selectedClassroom)
      ensures selectedSubject == old(selectedSubject) && teacherId == old(teacherId)
    {
      startTime := t;
    }

    method PickEndTime(t: int)
      modifies this
      ensures endTime == t
      ensures startTime == old(startTime) && selectedClassroom == old(selectedClassroom)
      ensures selectedSubject == old(selectedSubject) && teacherId == old(teacherId)
    {
      endTime := t;
    }

    /** `autoSelectClassroomByWiFi`: the selection becomes the classroom
        auto-selection settles on; the subject and the times are kept. */
    method AutoSelectClassroom(classrooms: Result<seq<Classroom>>, info: WiFiInfo)
      modifies this
      ensures selectedClassroom == AutoSelection(old(selectedClassroom), classrooms, info)
      ensures selectedSubject == old(selectedSubject) && startTime == old(startTime) && endTime == old(endTime)
      ensures teacherId == old(teacherId)
    {
      selectedClassroom := AutoSelection(selectedClassroom, classrooms, info);
    }

    /** The classroom dialog as written: the picked classroom replaces the
        selection and the subject chosen earlier stays selected. */
    method PickClassroom(classrooms: seq<Classroom>, which: nat)
      requires which < |classrooms|
      modifies this
      ensures selectedClassroom == Some(classrooms[which])
      ensures selectedSubject == old(selectedSubject) && startTime == old(startTime) && endTime == old(endTime)
      ensures teacherId == old(teacherId)
    {
      selectedClassroom := Some(classrooms[which]);
    }

    /** The classroom dialog as intended: picking a classroom also clears the
        subject, so the subject always belongs to the classroom. */
    method PickClassroomClearingSubject(repo: Repository.FirebaseRepository, classrooms: seq<Classroom>, which: nat)
      requires which < |classrooms|
      modifies this
      ensures selectedClassroom == Some(classrooms[which]) && selectedSubject.None?
      ensures SubjectOfClassroom(repo)
      ensures startTime == old(startTime) && endTime == old(endTime) && teacherId == old(teacherId)
    {
      selectedClassroom := Some(classrooms[which]);
      selectedSubject := None;
    }

    /** The subject button: refused without a classroom. With one, the
        classroom's subjects are fetched; when the fetch fails (the classroom
        document is missing) nothing is shown, an empty list is reported, and
        otherwise the subject picked in the dialog becomes the selection. */
    method PickSubject(repo: Repository.FirebaseRepository, which: nat) returns (o: SubjectPick)
      requires selectedClassroom.Some? ==>
        var choices := SubjectChoices(repo.subjects, repo.classrooms, selectedClassroom.value.id);
        choices == [] || which < |choices|
      modifies this
      ensures selectedClassroom == old(selectedClassroom) && startTime == old(startTime) && endTime == old(endTime)
      ensures teacherId == old(teacherId)
      ensures old(selectedClassroom).None? ==> o == Toast(NeedClassroomFirst) && selectedSubject == old(selectedSubject)
      ensures old(selectedClassroom).Some? && !HasKey(repo.classrooms, selectedClassroom.value.id) ==>
        o == NothingShown && selectedSubject == old(selectedSubject)
      ensures old(selectedClassroom).Some? && HasKey(repo.classrooms, selectedClassroom.value.id) ==>
        var choices := SubjectChoices(repo.subjects, repo.classrooms, selectedClassroom.value.id);
        && (choices == [] ==> o == Toast(NoSubjects) && selectedSubject == old(selectedSubject))
        && (choices != [] ==> o == Picked(choices[which]) && selectedSubject == Some(choices[which])
                              && SubjectOfClassroom(repo))
    {
      if selectedClassroom.None? {
        return Toast(NeedClassroomFirst);
      }
      var r := repo.GetClassroomSubjects(selectedClassroom.value.id);
      if r.Failure? {
        return NothingShown;
      }
      var choices := r.value;
      if choices == [] {
        return Toast(NoSubjects);
      }
      selectedSubject := Some(choices[which]);
      o := Picked(choices[which]);
    }

    /** `createSession`: the check chain over the selection, the times and
        the device's network; only a `Create` decision writes, and then
        exactly the session the repository builds from the device's
        identity. */
    method CreateSession(repo: Repository.FirebaseRepository, p: PlatformSnapshot, sessionId: string,
                         today: string, now: int)
      returns (d: CreateDecision)
      requires repo.Valid()
      modifies repo
      ensures repo.Valid()
      ensures d == DecideCreate(selectedClassroom, selectedSubject, startTime, endTime, p)
      ensures !d.Create? ==> repo.sessions == old(repo.sessions) && repo.activeSessions == old(repo.activeSessions)
      ensures d.Create? ==>
        var s := Repository.NewSession(sessionId, teacherId, d.subjectId, d.classroomId, today, d.startTime, d.endTime,
                                       d.wifiSSID, d.wifiBSSID, now);
        && repo.sessions == Set(old(repo.sessions), sessionId, s)
        && repo.activeSessions == Set(old(repo.activeSessions), sessionId, s)
      ensures repo.attendance == old(repo.attendance) && repo.students == old(repo.students)
      ensures repo.classrooms == old(repo.classrooms) && repo.subjects == old(repo.subjects)
      ensures repo.teachers == old(repo.teachers)
    {
      d := DecideCreate(selectedClassroom, selectedSubject, startTime, endTime, p);
      if d.Create? {
        var r := repo.CreateSession(teacherId, d.subjectId, d.classroomId, d.startTime, d.endTime,
                                    d.wifiSSID, d.wifiBSSID, sessionId, today, now);
      }
    }
  }

  /** Under the intended classroom dialog, a created session's subject is one
      its classroom offers. */
  lemma CreatedSubjectBelongsToClassroom(subjects: seq<Doc<Subject>>, classrooms: seq<Doc<Classroom>>,
                                         classroom: Option<Classroom>, subject: Option<Subject>,
                                         startTime: int, endTime: int, p: PlatformSnapshot)
    requires subject.Some? ==> classroom.Some? && subject.value in SubjectChoices(subjects, classrooms, classroom.value.id)
    requires DecideCreate(classroom, subject, startTime, endTime, p).Create?
    ensures var d := DecideCreate(classroom, subject, startTime, endTime, p);
      HasKey(classrooms, d.classroomId) && d.subjectId in Get(classrooms, d.classroomId).value.subjects
  {
  }

  /** The guard does not look at which classroom the subject came from: after
      a subject of one classroom is chosen and the dialog then picks another
      classroom, a session is created for the new classroom with a subject
      that classroom does not offer. */
  lemma StaleSubjectPassesGuard(subjects: seq<Doc<Subject>>, classrooms: seq<Doc<Classroom>>,
                                first: Classroom, second: Classroom, subject: Subject,
                                startTime: int, endTime: int, p: PlatformSnapshot)
    requires subject in SubjectChoices(subjects, classrooms, first.id)
    requires HasKey(classrooms, second.id) && subject.id !in Get(classrooms, second.id).value.subjects
    requires startTime != 0 && endTime != 0 && startTime < endTime
    requires VerifyClassroomWiFi(p, second.wifiSSID, second.wifiBSSID)
    ensures var d := DecideCreate(Some(second), Some(subject), startTime, endTime, p);
      && d.Create? && d.classroomId == second.id && d.subjectId == subject.id
      && subject !in SubjectChoices(subjects, classrooms, second.id)
  {
  }
}
