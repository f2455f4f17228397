# ClassLogger attendance core, modelled in Dafny

ClassLogger is an Android app for classroom attendance. A teacher opens a
session for a subject in a classroom. The session is bound to the WiFi
network (SSID and BSSID) the teacher's device is on. A student marks
attendance by taking a selfie while on that same network, and a face
recognition service must name the student with enough confidence. Teachers
list, close and override sessions, and both sides browse attendance history
with summary statistics.

This project models the app's core as Dafny:

- `common.dfy`: the `Option`, `Result` and `Outcome` wrappers.
- `strings.dfy`: the Kotlin string operations the checks rely on (`trim`,
  `lowercase`, `replace`, `equals(ignoreCase = true)`, `endsWith`).
- `store.dfy`: a document collection of the remote store (get, set, update,
  delete by document id).
- `models.dfy`: the records and enumerations, status parsing, the absent
  substitute record, the percentage and the float-to-int truncation.
- `wifi.dfy`: WiFi detection and classroom verification (`WiFiUtils`), as
  functions over one snapshot of the platform's readings.
- `ledger.dfy`: the attendance collection as the repository queries and
  updates it: first record per pair, override, mark, per-session list,
  offered sessions and per-subject counts.
- `repository.dfy`: `FirebaseRepository` as a class whose fields are the
  collections and whose methods are its operations.
- `history.dfy`: the history loop shared by the two history screens, the
  newest-first sort and the statistics.
- `create_session.dfy`, `student_attendance.dfy`,
  `teacher_view_attendance.dfy`, `student_subject_detail.dfy`,
  `teacher_active_sessions.dfy`, `session_attendance_list.dfy`,
  `login.dfy`, `register.dfy`: the screens, as classes holding each
  activity's selection state.
- `facenet_api.dfy`: the face-service client's base URL handling.

The remote store, the identity service, the face service, the clock, the
camera and id generation are outside the model. Their answers are
parameters: an account id or failure, a prediction or failure, `now`, a
generated session id, today's date. The platform's WiFi readings are a
`PlatformSnapshot` value.

Where the code and its documentation disagree, the model follows the code:

- `getSessionAttendance` skips a roster student whose document is missing
  instead of failing.
- The record shown for a pair is the first attendance document in store
  order (insertion order in this model), and duplicate records for a pair
  are possible.
  - `markAttendance` appends without looking.
  - The student screen's `markAttendanceWithSubject` writes its own document
    with a direct `add`.
- That screen stores the selfie under `selfieUrl` and the score as a whole
  percentage. The repository's `markAttendance` stores them under
  `selfieBase64` and `verificationScore`, fields the `Attendance` class does
  not declare. They are modelled as optional fields.
- The teacher's history always looks up the subject name (session documents
  carry none) and shows "Unknown" when the subject document is missing.
- Auto-selection compares trimmed SSIDs without removing quotes.
  Verification removes quotes from the configured SSID, and detection
  removes them from the reported SSID.
- Updating a missing document fails, so `closeSession` on a missing session
  writes nothing.

## Model

| member | source | states |
|---|---|---|
| `Strings.TrimStart` | app/src/main/java/com/example/classlogger/utils/WifiUtils.kt:176 | never longer than the input, does not start with whitespace, and every character dropped from the front is whitespace |
| `Strings.TrimEnd` | app/src/main/java/com/example/classlogger/utils/WifiUtils.kt:177 | never longer than the input, keeps its first character, does not end with whitespace, and every character dropped from the back is whitespace |
| `Strings.TrimStartIsSuffix` | app/src/main/java/com/example/classlogger/utils/WifiUtils.kt:176 | what dropping the leading whitespace keeps is a suffix of the input |
| `Strings.TrimEndIsPrefix` | app/src/main/java/com/example/classlogger/utils/WifiUtils.kt:177 | what dropping the trailing whitespace keeps is a prefix of the input |
| `Strings.Trim` | app/src/main/java/com/example/classlogger/ui/auth/LoginActivity.kt:48-53 | `trim()`: never longer than the input, and no whitespace at either end |
| `Strings.Lower` | app/src/main/java/com/example/classlogger/utils/WifiUtils.kt:177 | `lowercase()`: same length, every character mapped to lower case, no upper-case letter left |
| `Strings.RemoveAll` | app/src/main/java/com/example/classlogger/utils/WifiUtils.kt:103 | `replace("\"", "")`: the character no longer occurs, no new character appears, and a string without it is unchanged |
| `Strings.EqualsIgnoreCaseIsLowerEquality` | app/src/main/java/com/example/classlogger/utils/WifiUtils.kt:180-181 | `equals(ignoreCase = true)` holds exactly when the lower-cased strings are equal |
| `Strings.LowerIdempotent` | app/src/main/java/com/example/classlogger/utils/WifiUtils.kt:177 | lower-casing twice is lower-casing once |
| `Strings.TrimLowerCommute` | app/src/main/java/com/example/classlogger/utils/WifiUtils.kt:177 | trimming and lower-casing commute, so the BSSID cleaning does not depend on their order |
| `Strings.TrimStartLowerCommute` | app/src/main/java/com/example/classlogger/utils/WifiUtils.kt:177 | dropping leading whitespace commutes with lower-casing |
| `Strings.TrimEndLowerCommute` | app/src/main/java/com/example/classlogger/utils/WifiUtils.kt:177 | dropping trailing whitespace commutes with lower-casing |
| `Strings.WhitespaceIgnoresCase` | app/src/main/java/com/example/classlogger/utils/WifiUtils.kt:176-177 | lower-casing never turns a character into whitespace or out of it |
| `Strings.RemoveAllLowerCommute` | app/src/main/java/com/example/classlogger/utils/WifiUtils.kt:176 | removing a character that is not a letter commutes with lower-casing |
| `Strings.RemoveAllIdempotent` | app/src/main/java/com/example/classlogger/utils/WifiUtils.kt:103 | removing the quotes twice is removing them once |
| `Strings.TrimIdempotent` | app/src/main/java/com/example/classlogger/ui/auth/LoginActivity.kt:48-53 | trimming twice is trimming once |
| `Store.FirstIndex` | app/src/main/java/com/example/classlogger/repository/FirebaseRepository.kt:408-417 | the position of the first document under an id; there is none exactly when no document has that id |
| `Store.Get` | app/src/main/java/com/example/classlogger/repository/FirebaseRepository.kt:408-417 | a document read finds nothing exactly when the id is absent; otherwise it gives the fields of a document stored under that id |
| `Store.Set` | app/src/main/java/com/example/classlogger/repository/FirebaseRepository.kt:153-154 | `set` overwrites the document under a taken id in place and appends one under a new id; documents under other ids are unchanged |
| `Store.Update` | app/src/main/java/com/example/classlogger/repository/FirebaseRepository.kt:164-169 | `update` keeps every id in place, applies the change to the documents under the key and leaves all others unchanged |
| `Store.Delete` | app/src/main/java/com/example/classlogger/repository/FirebaseRepository.kt:170 | `delete`: no document keeps the id, every other document stays, nothing is added, and a missing id changes nothing |
| `Store.GetAfterSetSame` | app/src/main/java/com/example/classlogger/repository/FirebaseRepository.kt:153-154 | reading back a document just written gives what was written |
| `Store.GetAfterSetOther` | app/src/main/java/com/example/classlogger/repository/FirebaseRepository.kt:153-154 | writing under one id leaves every other id reading as before |
| `Store.GetAfterSet` | app/src/main/java/com/example/classlogger/repository/FirebaseRepository.kt:62 | a write reads back as written, and other ids read as before |
| `Store.GetAfterUpdate` | app/src/main/java/com/example/classlogger/repository/FirebaseRepository.kt:164-169 | an updated document reads back with the change applied, a missing one stays missing, and other ids read as before |
| `Store.SameKeysSameFirstIndex` | app/src/main/java/com/example/classlogger/repository/FirebaseRepository.kt:164-169 | collections with the same id at every position agree on where each id first occurs |
| `Store.SetKeepsUniqueKeys` | app/src/main/java/com/example/classlogger/repository/FirebaseRepository.kt:153-154 | writing a document keeps ids unique |
| `Store.DeleteKeepsUniqueKeys` | app/src/main/java/com/example/classlogger/repository/FirebaseRepository.kt:170 | deleting a document keeps ids unique |
| `Store.DeleteIdempotent` | app/src/main/java/com/example/classlogger/repository/FirebaseRepository.kt:170 | deleting an id twice is deleting it once |
| `Store.GetStored` | app/src/main/java/com/example/classlogger/repository/FirebaseRepository.kt:408-417 | with unique ids, reading the id of a stored document returns that document |
| `Models.AttendanceStatusValueOf` | app/src/main/java/com/example/classlogger/ui/teacher/TeacherViewAttendanceActivity.kt:280 | `valueOf` succeeds exactly on "PRESENT" and "ABSENT" and gives the status of that name |
| `Models.SessionStatusValueOf` | app/src/main/java/com/example/classlogger/ui/teacher/TeacherActiveSessionsActivity.kt:94 | `valueOf` succeeds exactly on "ACTIVE" and "CLOSED" and gives the status of that name |
| `Models.ParseAttendanceStatus` | app/src/main/java/com/example/classlogger/ui/teacher/TeacherViewAttendanceActivity.kt:277-283 | a stored status reads as present exactly when it is "PRESENT"; a missing field or an unknown name reads as absent |
| `Models.ParseAttendanceStatusRoundTrip` | app/src/main/java/com/example/classlogger/ui/teacher/TeacherViewAttendanceActivity.kt:277-283 | reading back the name a status was stored under gives that status |
| `Models.AbsentDefault` | app/src/main/java/com/example/classlogger/repository/FirebaseRepository.kt:208-213 | the substitute for a pair without a document: that pair, absent, time 0, marked by the student, no selfie, no overrider |
| `Models.Percentage` | app/src/main/java/com/example/classlogger/repository/FirebaseRepository.kt:356 | between 0 and 100; 0 when nothing was held; otherwise attended times 100 over total; 100 exactly when every session was attended, 0 exactly when none was |
| `Models.TruncateToInt` | app/src/main/java/com/example/classlogger/ui/student/StudentAttendanceActivity.kt:435 | `toInt()` rounds toward zero, for negative values too |
| `WifiUtils.RequiredPermissions` | app/src/main/java/com/example/classlogger/utils/WifiUtils.kt:24-36 | two permissions, WiFi state first; fine location exactly from Android 10 (API 29) on, coarse location exactly before it |
| `WifiUtils.HasRequiredPermissions` | app/src/main/java/com/example/classlogger/utils/WifiUtils.kt:211-216 | `hasRequiredPermissions` holds exactly when WiFi state and the location permission of the device's API level (fine from Android 10 on, coarse before) are both granted |
| `WifiUtils.CleanSsid` | app/src/main/java/com/example/classlogger/utils/WifiUtils.kt:100-103 | a null SSID reads as empty, and no double quote is left |
| `WifiUtils.CurrentWiFiInfo` | app/src/main/java/com/example/classlogger/utils/WifiUtils.kt:49-125 | nothing when a guard fails (permissions, location, manager, radio, WiFi transport, connection info). Otherwise nothing exactly when the cleaned SSID is empty or "<unknown ssid>", or the BSSID is null or the placeholder; a result carries the cleaned SSID, the lower-cased BSSID and `isConnected` |
| `WifiUtils.VerifyAsLowerCaseEquality` | app/src/main/java/com/example/classlogger/utils/WifiUtils.kt:160-206 | `verifyClassroomWiFi` (`VerifyClassroomWiFi`) holds exactly when a network is detected, its SSID and the configured SSID (trimmed, quotes removed) agree once lower-cased, and its BSSID equals the configured BSSID trimmed and lower-cased; `verifyClassroomWiFiBySSID` (`VerifyClassroomWiFiBySSID`) holds exactly when the SSID part does |
| `WifiUtils.VerifyImpliesVerifyBySSID` | app/src/main/java/com/example/classlogger/utils/WifiUtils.kt:160-206 | both checks fail without a current network, and passing the full check implies passing the SSID-only check |
| `WifiUtils.VerifyIgnoresConfiguredCase` | app/src/main/java/com/example/classlogger/utils/WifiUtils.kt:176-186 | the verdict does not depend on the case in which the classroom's SSID and BSSID were entered |
| `WifiUtils.IgnoreCaseAgainstLower` | app/src/main/java/com/example/classlogger/utils/WifiUtils.kt:180-181 | comparing ignoring case against a lower-cased string is comparing against the original |
| `WifiUtils.VerifyAcceptsReportedIdentity` | app/src/main/java/com/example/classlogger/utils/WifiUtils.kt:160-190 | a classroom configured with exactly the SSID and BSSID the device reports is recognised, when neither has whitespace at the ends |
| `WifiUtils.RemoveAllAppend` | app/src/main/java/com/example/classlogger/utils/WifiUtils.kt:103 | removing a character from a concatenation removes it from each part |
| `WifiUtils.QuotedSsidMatchesBareName` | app/src/main/java/com/example/classlogger/utils/WifiUtils.kt:100-186 | the platform's quoted SSID matches a classroom configured with the bare name and the access point's address, in any case |
| `WifiUtils.DetectedIdentity` | app/src/main/java/com/example/classlogger/utils/WifiUtils.kt:100-124 | on a ready device with a valid cleaned SSID and BSSID, detection yields exactly that SSID and the lower-cased BSSID |
| `WifiUtils.UnquoteQuoted` | app/src/main/java/com/example/classlogger/utils/WifiUtils.kt:103 | stripping the quotes from a quoted name without quotes gives the name |
| `WifiUtils.WiFiStatusMessage` | app/src/main/java/com/example/classlogger/utils/WifiUtils.kt:240-265 | the message names the first failing condition in the order permission, location, manager, radio, connection; otherwise the detected network or the generic failure |
| `WifiUtils.StatusMessageAgreesWithInfo` | app/src/main/java/com/example/classlogger/utils/WifiUtils.kt:240-265 | the message names a network exactly when detection yields one, and then it names the detected SSID; otherwise it is one of the six failure messages |
| `Ledger.FirstRecordIndex` | app/src/main/java/com/example/classlogger/repository/FirebaseRepository.kt:193-201 | the position of the first document for the session and student in store order (what the `limit(1)` query returns); none exactly when the pair has no document |
| `Ledger.RecordOrAbsent` | app/src/main/java/com/example/classlogger/repository/FirebaseRepository.kt:200-214 | the record shown for a pair is for that pair: its first stored document when there is one, otherwise the absent substitute |
| `Ledger.RecordCount` | app/src/main/java/com/example/classlogger/repository/FirebaseRepository.kt:193-198 | the number of documents for a pair never exceeds the collection's size |
| `Ledger.RecordCountZero` | app/src/main/java/com/example/classlogger/repository/FirebaseRepository.kt:200 | a pair has no document exactly when the first-document query finds none |
| `Ledger.RecordCountReplace` | app/src/main/java/com/example/classlogger/repository/FirebaseRepository.kt:250 | replacing a document by one for the same pair, or by one for another pair where the replaced one was also for another pair, leaves the pair's count unchanged |
| `Ledger.RecordCountAppend` | app/src/main/java/com/example/classlogger/repository/FirebaseRepository.kt:333 | appending a document raises its pair's count by one and no other pair's |
| `Ledger.PresentQueryMatchesShownRecord` | app/src/main/java/com/example/classlogger/repository/FirebaseRepository.kt:390-398 | with at most one document per pair, the "some present document" query used for counts agrees with the status of the record the list shows |
| `Ledger.TeacherRecord` | app/src/main/java/com/example/classlogger/repository/FirebaseRepository.kt:253-260 | the document an override inserts: for the pair, the new status, marked by the teacher, with the overrider and the time |
| `Ledger.Override` | app/src/main/java/com/example/classlogger/repository/FirebaseRepository.kt:242-262 | `overrideAttendance` on the collection: one document more exactly when the pair had none, and that one is the teacher's new record at the end; every document other than the pair's first stays where it was, unchanged, so a later duplicate of the pair is left alone (only the first one is updated) |
| `Ledger.OverrideEffect` | app/src/main/java/com/example/classlogger/repository/FirebaseRepository.kt:227-268 | after an override the pair's shown record has the new status, the teacher as overrider, TEACHER as author and the new time, and keeps its other fields. The pair gains one document when it had none and keeps its count otherwise |
| `Ledger.OverrideKeepsOtherPairs` | app/src/main/java/com/example/classlogger/repository/FirebaseRepository.kt:242-262 | an override leaves the shown record of every other pair as it was |
| `Ledger.TwoOverridesLeaveOneRecord` | app/src/main/java/com/example/classlogger/repository/FirebaseRepository.kt:242-262 | two overrides of a pair without documents leave exactly one document, carrying the second status and teacher |
| `Ledger.OverrideKeepsAtMostOnePerPair` | app/src/main/java/com/example/classlogger/repository/FirebaseRepository.kt:242-262 | an override never creates a second document for a pair |
| `Ledger.StudentRecord` | app/src/main/java/com/example/classlogger/repository/FirebaseRepository.kt:323-331 | the document `markAttendance` writes: for the pair, present, marked by the student at the given time, with the selfie and the score |
| `Ledger.MarkTwiceDuplicates` | app/src/main/java/com/example/classlogger/repository/FirebaseRepository.kt:316-338 | marking twice leaves two documents for the pair |
| `Ledger.DuplicateRecordsDisagree` | app/src/main/java/com/example/classlogger/repository/FirebaseRepository.kt:193-201 | when a teacher marked a student absent and the student then marked present, the per-session list shows absent while the subject count finds a present record |
| `Ledger.ExistingIds` | app/src/main/java/com/example/classlogger/repository/FirebaseRepository.kt:188-218 | the listed ids whose document exists: exactly those ids, in list order (a subsequence of the list), and the whole list when every document exists |
| `Ledger.SessionRows` | app/src/main/java/com/example/classlogger/repository/FirebaseRepository.kt:186-221 | each row belongs to a roster student with a document and holds that student (id copied in) and the record shown for the pair |
| `Ledger.SessionRowsInOrder` | app/src/main/java/com/example/classlogger/repository/FirebaseRepository.kt:186-221 | exactly one row per roster student with a document, in roster order |
| `Ledger.SessionRowsStep` | app/src/main/java/com/example/classlogger/repository/FirebaseRepository.kt:188-218 | one more roster entry adds its row after the earlier ones exactly when its student document exists |
| `Ledger.SessionRowsShape` | app/src/main/java/com/example/classlogger/repository/FirebaseRepository.kt:186-221 | never more rows than the roster; exactly one per roster entry when every student exists; a student without a document for the session shows the absent substitute |
| `Ledger.OfferedSessions` | app/src/main/java/com/example/classlogger/repository/FirebaseRepository.kt:280-308 | exactly the index entries in one of the student's classrooms with the window open, each shown with its looked-up names |
| `Ledger.ToActiveSession` | app/src/main/java/com/example/classlogger/repository/FirebaseRepository.kt:286-306 | an index entry is shown with its own id and times, and the subject, teacher and classroom names of the documents it refers to, "" for each one missing |
| `Ledger.DeletedSessionNotOffered` | app/src/main/java/com/example/classlogger/repository/FirebaseRepository.kt:170 | a session whose index entry was deleted is never offered to any student |
| `Ledger.SessionsOfSubject` | app/src/main/java/com/example/classlogger/repository/FirebaseRepository.kt:381-388 | the number of sessions held for the subject, never more than the sessions stored |
| `Ledger.AttendedSessions` | app/src/main/java/com/example/classlogger/repository/FirebaseRepository.kt:386-401 | the number of the subject's sessions with a present record for the student, never more than the sessions held |
| `Ledger.AttendedSessionsMonotone` | app/src/main/java/com/example/classlogger/repository/FirebaseRepository.kt:386-401 | adding attendance documents never lowers a student's attended count |
| `Ledger.AllPresentAttendedAll` | app/src/main/java/com/example/classlogger/repository/FirebaseRepository.kt:386-401 | a student present at every session of the subject has attended all of them |
| `Ledger.SubjectRow` | app/src/main/java/com/example/classlogger/repository/FirebaseRepository.kt:355-367 | a subject row carries the subject's id, name and code, the sessions held, the sessions attended (never more), and a percentage between 0 and 100 that is 0 when nothing was held |
| `Ledger.ClassroomSubjectRows` | app/src/main/java/com/example/classlogger/repository/FirebaseRepository.kt:351-368 | the rows of one classroom: no more rows than listed subjects, and each row is the subject row of a listed subject that has a document |
| `Ledger.ClassroomSubjectRowsInOrder` | app/src/main/java/com/example/classlogger/repository/FirebaseRepository.kt:351-368 | exactly one subject row per listed subject that has a document, in list order; listed subjects without a document are skipped |
| `Ledger.ExistingIdsSnoc` | app/src/main/java/com/example/classlogger/repository/FirebaseRepository.kt:351-368 | the per-id loop step: one more listed id is kept, at the end, exactly when its document exists |
| `Ledger.StudentSubjectRows` | app/src/main/java/com/example/classlogger/repository/FirebaseRepository.kt:347-369 | `getStudentSubjects`' rows: every row is the subject row of a subject one of the student's existing classrooms lists |
| `Ledger.StudentSubjectRowsAppend` | app/src/main/java/com/example/classlogger/repository/FirebaseRepository.kt:347-369 | the rows are gathered classroom by classroom in the student's order: one more classroom appends its subject rows, or nothing when its document is missing |
| `Ledger.StudentSubjectRowsComplete` | app/src/main/java/com/example/classlogger/repository/FirebaseRepository.kt:347-369 | nothing is lost: each subject with a document listed by one of the student's existing classrooms yields its subject row |
| `Ledger.StudentSubjectRowsBounded` | app/src/main/java/com/example/classlogger/repository/FirebaseRepository.kt:355-367 | every reported subject has attended at most total, a percentage within 0 and 100, and 0 when no session was held |
| `Repository.NewSession` | app/src/main/java/com/example/classlogger/repository/FirebaseRepository.kt:139-151 | the session `createSession` writes: active with the window open, carrying exactly the ids, date, times and WiFi identity passed in |
| `Repository.ClosedSession` | app/src/main/java/com/example/classlogger/repository/FirebaseRepository.kt:164-169 | the close update sets CLOSED and shuts the window, and keeps every other field |
| `Repository.ListedSubjects` | app/src/main/java/com/example/classlogger/repository/FirebaseRepository.kt:109-117 | the subjects of a stored classroom: each is the stored subject of a listed id, with that id copied in |
| `Repository.ListedSubjectsInOrder` | app/src/main/java/com/example/classlogger/repository/FirebaseRepository.kt:109-117 | exactly one subject per listed id that has a subject document, in list order; ids without a document are skipped |
| `Repository.CloseSessionEffect` | app/src/main/java/com/example/classlogger/repository/FirebaseRepository.kt:162-176 | closing stores the closed form of the session and removes its index entry; closing again changes nothing more |
| `Repository.CreateKeepsIndexConsistent` | app/src/main/java/com/example/classlogger/repository/FirebaseRepository.kt:153-154 | writing a new active session to both collections keeps the index equal to the active sessions as stored |
| `Repository.CloseKeepsIndexConsistent` | app/src/main/java/com/example/classlogger/repository/FirebaseRepository.kt:164-170 | closing a session keeps the index consistent with the stored sessions |
| `Repository.FirebaseRepository.constructor` | app/src/main/java/com/example/classlogger/repository/FirebaseRepository.kt:17-23 | the store starts with every collection empty and its invariant established |
| `Repository.FirebaseRepository.CreateSession` | app/src/main/java/com/example/classlogger/repository/FirebaseRepository.kt:123-160 | `createSession` returns the generated id and writes that session under it to both the sessions collection and the index; nothing else changes and the invariant is kept |
| `Repository.FirebaseRepository.CloseSession` | app/src/main/java/com/example/classlogger/repository/FirebaseRepository.kt:162-176 | a missing session fails and writes nothing; otherwise the session is closed in place and its index entry deleted; the invariant is kept |
| `Repository.FirebaseRepository.GetSession` | app/src/main/java/com/example/classlogger/repository/FirebaseRepository.kt:408-417 | the stored session with its id set to the document id, or the "Session not found" failure when there is none |
| `Repository.FirebaseRepository.GetClassroomSubjects` | app/src/main/java/com/example/classlogger/repository/FirebaseRepository.kt:104-121 | `getClassroomSubjects`: "Classroom not found" when the classroom document is missing, otherwise exactly its listed subjects that have a document, in list order |
| `Repository.FirebaseRepository.GetSessionAttendance` | app/src/main/java/com/example/classlogger/repository/FirebaseRepository.kt:178-225 | fails when the session or its classroom is missing; otherwise gives one row per roster student with a document, with the record shown for them |
| `Repository.FirebaseRepository.OverrideAttendance` | app/src/main/java/com/example/classlogger/repository/FirebaseRepository.kt:227-268 | the attendance collection becomes the override of the old one; nothing else is written |
| `Repository.FirebaseRepository.MarkAttendance` | app/src/main/java/com/example/classlogger/repository/FirebaseRepository.kt:316-338 | exactly one present document written by the student is appended to the attendance collection; nothing else is written |
| `Repository.FirebaseRepository.GetActiveSessionsForStudent` | app/src/main/java/com/example/classlogger/repository/FirebaseRepository.kt:272-314 | fails when the student is missing; otherwise gives the sessions offered to the student's classrooms |
| `Repository.FirebaseRepository.GetAttendanceCountForSubject` | app/src/main/java/com/example/classlogger/repository/FirebaseRepository.kt:377-404 | the loop counts the sessions held for the subject and those with a present record for the student, attended never above total |
| `Repository.FirebaseRepository.GetStudentSubjects` | app/src/main/java/com/example/classlogger/repository/FirebaseRepository.kt:340-375 | fails when the student is missing; otherwise gives the subject rows of the student's existing classrooms |
| `Repository.FirebaseRepository.ClassroomSubjects` | app/src/main/java/com/example/classlogger/repository/FirebaseRepository.kt:351-368 | the inner loop yields exactly one classroom's subject rows, in list order |
| `Repository.FirebaseRepository.RegisterTeacher` | app/src/main/java/com/example/classlogger/repository/FirebaseRepository.kt:57-68 | a failed account writes nothing; otherwise the profile is stored under the account id; no other collection changes |
| `Repository.FirebaseRepository.RegisterStudent` | app/src/main/java/com/example/classlogger/repository/FirebaseRepository.kt:70-81 | a failed account writes nothing; otherwise the profile is stored under the account id; no other collection changes |
| `History.RecordFor` | app/src/main/java/com/example/classlogger/ui/teacher/TeacherViewAttendanceActivity.kt:263-309 | the row for one session carries the session's id, date and times and the subject name; it takes status, time and selfie from the student's first document, or is absent with time 0 and no selfie |
| `History.MatchingSessions` | app/src/main/java/com/example/classlogger/ui/teacher/TeacherViewAttendanceActivity.kt:241-246 | the query for a classroom and subject returns no more sessions than are stored |
| `History.MatchingSessionsMembers` | app/src/main/java/com/example/classlogger/ui/teacher/TeacherViewAttendanceActivity.kt:241-246 | the sessions kept are exactly the stored ones of that classroom and subject |
| `History.MatchingKeepsUniqueKeys` | app/src/main/java/com/example/classlogger/ui/teacher/TeacherViewAttendanceActivity.kt:241-246 | filtering keeps session ids unique |
| `History.HistoryOf` | app/src/main/java/com/example/classlogger/ui/teacher/TeacherViewAttendanceActivity.kt:250-310 | one row per session document, in the same order, each under that session's id |
| `History.HistoryOfRecords` | app/src/main/java/com/example/classlogger/ui/teacher/TeacherViewAttendanceActivity.kt:250-310 | every row of a history is the row its session shows |
| `History.CollectHistory` | app/src/main/java/com/example/classlogger/ui/teacher/TeacherViewAttendanceActivity.kt:248-310 | the loop builds exactly the history of the classroom's sessions of the subject |
| `History.RecordOfSession` | app/src/main/java/com/example/classlogger/ui/student/StudentSubjectDetailActivity.kt:110-167 | every session of the classroom and subject has its row at a definite position |
| `History.SessionOfRecord` | app/src/main/java/com/example/classlogger/ui/student/StudentSubjectDetailActivity.kt:110-167 | every row is that of a stored session of the classroom and subject |
| `History.HistoryCoversSessions` | app/src/main/java/com/example/classlogger/ui/teacher/TeacherViewAttendanceActivity.kt:250-310 | no session of the classroom and subject is missing from the history |
| `History.HistoryOnlyMatchingSessions` | app/src/main/java/com/example/classlogger/ui/teacher/TeacherViewAttendanceActivity.kt:250-310 | the history holds no session of another classroom or subject |
| `History.HistoryDistinctSessions` | app/src/main/java/com/example/classlogger/ui/teacher/TeacherViewAttendanceActivity.kt:250-310 | with unique session ids, no session has two rows |
| `History.HistoryOnePerSession` | app/src/main/java/com/example/classlogger/ui/teacher/TeacherViewAttendanceActivity.kt:250-310 | exactly one row per session of the classroom and subject |
| `History.InsertByStart` | app/src/main/java/com/example/classlogger/ui/teacher/TeacherViewAttendanceActivity.kt:313 | inserting keeps every record and adds exactly the new one |
| `History.InsertKeepsNewestFirst` | app/src/main/java/com/example/classlogger/ui/teacher/TeacherViewAttendanceActivity.kt:313 | inserting into a newest-first list keeps it newest first |
| `History.SortByStart` | app/src/main/java/com/example/classlogger/ui/teacher/TeacherViewAttendanceActivity.kt:313 | `sortByDescending { it.startTime }`: newest first, and a permutation of the input |
| `History.CountPresent` | app/src/main/java/com/example/classlogger/ui/teacher/TeacherViewAttendanceActivity.kt:334-350 | the number of present records never exceeds the number of records |
| `History.CountPresentAppend` | app/src/main/java/com/example/classlogger/ui/teacher/TeacherViewAttendanceActivity.kt:334-350 | the present count of a concatenation is the sum of the counts |
| `History.CountPresentRemove` | app/src/main/java/com/example/classlogger/ui/teacher/TeacherViewAttendanceActivity.kt:334-350 | taking one record out takes out exactly its share of the count |
| `History.MultisetTail` | app/src/main/java/com/example/classlogger/ui/teacher/TeacherViewAttendanceActivity.kt:313 | removing the same record from two permutations of each other leaves permutations of each other |
| `History.CountPresentPermutation` | app/src/main/java/com/example/classlogger/ui/teacher/TeacherViewAttendanceActivity.kt:334-350 | the present count depends only on which records there are, not on their order |
| `History.CalculateStats` | app/src/main/java/com/example/classlogger/ui/teacher/TeacherViewAttendanceActivity.kt:334-350 | total is the number of rows, attended the present ones, absent the rest; the percentage is between 0 and 100, 0 for an empty history, and 100 exactly when the history is non-empty and all present |
| `History.AllPresentCount` | app/src/main/java/com/example/classlogger/ui/teacher/TeacherViewAttendanceActivity.kt:334-350 | the present count equals the length exactly when every record is present |
| `History.StatsIgnoreOrder` | app/src/main/java/com/example/classlogger/ui/teacher/TeacherViewAttendanceActivity.kt:313-316 | sorting a history does not change its summary |
| `TeacherViewAttendance.SubjectNameOrUnknown` | app/src/main/java/com/example/classlogger/ui/teacher/TeacherViewAttendanceActivity.kt:254-261 | the subject document's name, or "Unknown" exactly when there is no subject document |
| `TeacherViewAttendance.TeacherHistory` | app/src/main/java/com/example/classlogger/ui/teacher/TeacherViewAttendanceActivity.kt:250-310 | one row per matching session, every row carrying the looked-up subject name ("Unknown" when missing) |
| `TeacherViewAttendance.SortedHistory` | app/src/main/java/com/example/classlogger/ui/teacher/TeacherViewAttendanceActivity.kt:248-313 | the rows the screen builds are the sorted history of the classroom's sessions of the subject for the student |
| `TeacherViewAttendance.TeacherViewAttendanceScreen.constructor` | app/src/main/java/com/example/classlogger/ui/teacher/TeacherViewAttendanceActivity.kt:40-52 | the screen starts with nothing selected, no rows, and its selection cascade holding |
| `TeacherViewAttendance.TeacherViewAttendanceScreen.SelectClassroom` | app/src/main/java/com/example/classlogger/ui/teacher/TeacherViewAttendanceActivity.kt:105-129 | choosing a classroom clears the subject, the student and the rows |
| `TeacherViewAttendance.TeacherViewAttendanceScreen.SelectSubject` | app/src/main/java/com/example/classlogger/ui/teacher/TeacherViewAttendanceActivity.kt:131-178 | without a classroom the subject button is refused and nothing changes; otherwise choosing a subject clears the student and the rows |
| `TeacherViewAttendance.TeacherViewAttendanceScreen.SelectStudent` | app/src/main/java/com/example/classlogger/ui/teacher/TeacherViewAttendanceActivity.kt:180-224 | without a classroom and a subject the student button is refused and nothing changes; otherwise the chosen student's history is loaded, newest first |
| `TeacherViewAttendance.TeacherViewAttendanceScreen.LoadAttendanceHistory` | app/src/main/java/com/example/classlogger/ui/teacher/TeacherViewAttendanceActivity.kt:227-332 | with all three selections the rows become the student's sorted history for the classroom and subject, with its summary; otherwise nothing changes; selections are kept |
| `TeacherViewAttendance.ShownHistory` | app/src/main/java/com/example/classlogger/ui/teacher/TeacherViewAttendanceActivity.kt:227-350 | the rows shown are one per session of the classroom and subject, none missing and none twice; each is read from the student's first document or absent; they are newest first, a permutation of the unsorted rows, and summarised as those are |
| `StudentSubjectDetail.FirstSubjectNamed` | app/src/main/java/com/example/classlogger/ui/student/StudentSubjectDetailActivity.kt:75-96 | the first subject document in store order with the given name; none exactly when no subject has it |
| `StudentSubjectDetail.ClassroomsOf` | app/src/main/java/com/example/classlogger/ui/student/StudentSubjectDetailActivity.kt:99-105 | the classroom ids on the student's document, none for a missing document |
| `StudentSubjectDetail.StudentHistory` | app/src/main/java/com/example/classlogger/ui/student/StudentSubjectDetailActivity.kt:110-167 | every row carries the subject name the screen was opened with |
| `StudentSubjectDetail.StudentHistoryLast` | app/src/main/java/com/example/classlogger/ui/student/StudentSubjectDetailActivity.kt:110-167 | the history over a classroom list is that of all but the last classroom, followed by the last classroom's |
| `StudentSubjectDetail.StudentRecordSession` | app/src/main/java/com/example/classlogger/ui/student/StudentSubjectDetailActivity.kt:110-167 | each row is for a session of the subject held in one of the student's classrooms, and is that session's row |
| `StudentSubjectDetail.StudentHistorySound` | app/src/main/java/com/example/classlogger/ui/student/StudentSubjectDetailActivity.kt:110-167 | sessions of other classrooms or subjects never appear in the history |
| `StudentSubjectDetail.LastClassroomRecord` | app/src/main/java/com/example/classlogger/ui/student/StudentSubjectDetailActivity.kt:110-167 | a session of the subject in the student's last classroom has its row after the other classrooms' rows |
| `StudentSubjectDetail.StudentSessionRecord` | app/src/main/java/com/example/classlogger/ui/student/StudentSubjectDetailActivity.kt:110-167 | a session of the subject held in any of the student's classrooms has its row in the history |
| `StudentSubjectDetail.StudentHistoryComplete` | app/src/main/java/com/example/classlogger/ui/student/StudentSubjectDetailActivity.kt:110-167 | no session of the subject held in one of the student's classrooms is missing from the history |
| `StudentSubjectDetail.StudentHistoryDistinct` | app/src/main/java/com/example/classlogger/ui/student/StudentSubjectDetailActivity.kt:110-167 | when the classroom list has no repeats and session ids are unique, no session appears twice |
| `StudentSubjectDetail.AppendDistinct` | app/src/main/java/com/example/classlogger/ui/student/StudentSubjectDetailActivity.kt:110-167 | joining two histories without repeats and without a shared session gives a history without repeats |
| `StudentSubjectDetail.DifferentClassroomsDifferentKeys` | app/src/main/java/com/example/classlogger/ui/student/StudentSubjectDetailActivity.kt:110-116 | with unique session ids, sessions of different classrooms have different ids |
| `StudentSubjectDetail.CollectStudentHistory` | app/src/main/java/com/example/classlogger/ui/student/StudentSubjectDetailActivity.kt:107-167 | the outer loop over the student's classrooms builds exactly the student's history for the subject |
| `StudentSubjectDetail.BandOf` | app/src/main/java/com/example/classlogger/ui/student/StudentSubjectDetailActivity.kt:203-207 | the percentage colour: good exactly from 75, warning exactly from 50 to below 75, poor exactly below 50 |
| `StudentSubjectDetail.BandOfHistory` | app/src/main/java/com/example/classlogger/ui/student/StudentSubjectDetailActivity.kt:173-207 | a non-empty history with every session attended is good, and one with none attended is poor |
| `StudentSubjectDetail.StudentSubjectDetailScreen.constructor` | app/src/main/java/com/example/classlogger/ui/student/StudentSubjectDetailActivity.kt:31-44 | the screen starts with the subject given to it, no subject id and no rows |
| `StudentSubjectDetail.StudentSubjectDetailScreen.LoadAttendanceDetails` | app/src/main/java/com/example/classlogger/ui/student/StudentSubjectDetailActivity.kt:69-210 | a subject name with no document fails and clears the rows. Otherwise the subject id is the first such document's id, and the rows are the student's history for it over the student's classrooms, newest first |
| `SessionAttendanceList.Toggle` | app/src/main/java/com/example/classlogger/ui/teacher/SessionAttendanceListActivity.kt:126-130 | the toggle always writes the other status |
| `SessionAttendanceList.ToggleTwice` | app/src/main/java/com/example/classlogger/ui/teacher/SessionAttendanceListActivity.kt:126-130 | toggling twice gives back the original status |
| `SessionAttendanceList.PresentCount` | app/src/main/java/com/example/classlogger/ui/teacher/SessionAttendanceListActivity.kt:89-91 | the present count never exceeds the rows, and equals them exactly when every row is present |
| `SessionAttendanceList.SelfieViewable` | app/src/main/java/com/example/classlogger/ui/teacher/SessionAttendanceListActivity.kt:203-210 | the selfie button shows only for a record with a selfie, so never for the synthetic absent record |
| `SessionAttendanceList.ToggleRowMovesCount` | app/src/main/java/com/example/classlogger/ui/teacher/SessionAttendanceListActivity.kt:89-130 | flipping one row moves the present count by exactly one: down for a present row, up for an absent one |
| `SessionAttendanceList.NoSelfieOnRepositoryMarks` | app/src/main/java/com/example/classlogger/ui/teacher/SessionAttendanceListActivity.kt:203-210 | records written by the repository's mark operation, and absent substitutes, offer no selfie |
| `SessionAttendanceList.ToggleAttendance` | app/src/main/java/com/example/classlogger/ui/teacher/SessionAttendanceListActivity.kt:125-133 | the attendance collection becomes the override of the row's student with the flipped status in the teacher's name; nothing else is written |
| `SessionAttendanceList.ToggleFlipsShownRow` | app/src/main/java/com/example/classlogger/ui/teacher/SessionAttendanceListActivity.kt:125-140 | after a toggle the reloaded list shows that student flipped and authored by the teacher, every other student as before; toggling again restores the original status |
| `TeacherActiveSessions.EncodeSession` | app/src/main/java/com/example/classlogger/ui/teacher/TeacherActiveSessionsActivity.kt:86-98 | a stored session's status field holds its status name |
| `TeacherActiveSessions.DecodeSession` | app/src/main/java/com/example/classlogger/ui/teacher/TeacherActiveSessionsActivity.kt:86-98 | decoding fails exactly when the status is present but is not a status name. A decoded session takes the document id and the time of decoding; a missing status reads as active and a missing window as shut |
| `TeacherActiveSessions.DecodeEncode` | app/src/main/java/com/example/classlogger/ui/teacher/TeacherActiveSessionsActivity.kt:86-98 | decoding a stored session gives it back under its document id, with the decoding time as creation time |
| `TeacherActiveSessions.DecodeMissingFields` | app/src/main/java/com/example/classlogger/ui/teacher/TeacherActiveSessionsActivity.kt:86-98 | a document with every field missing decodes to the defaults |
| `TeacherActiveSessions.ActiveListFor` | app/src/main/java/com/example/classlogger/ui/teacher/TeacherActiveSessionsActivity.kt:78-98 | the teacher's list holds exactly that teacher's stored sessions whose status is active, each decoded with its document id as id and the decoding time as creation time |
| `TeacherActiveSessions.ClosedSessionDropsOut` | app/src/main/java/com/example/classlogger/ui/teacher/TeacherActiveSessionsActivity.kt:143-162 | once a session is closed it appears in no teacher's list |
| `TeacherActiveSessions.WindowLabel` | app/src/main/java/com/example/classlogger/ui/teacher/TeacherActiveSessionsActivity.kt:211 | "Active" exactly when the window is open, "Window Closed" otherwise |
| `TeacherActiveSessions.LabelsFollowLifecycle` | app/src/main/java/com/example/classlogger/ui/teacher/TeacherActiveSessionsActivity.kt:211 | a freshly created session reads "Active" and a closed one "Window Closed" |
| `TeacherActiveSessions.TeacherActiveSessionsScreen.constructor` | app/src/main/java/com/example/classlogger/ui/teacher/TeacherActiveSessionsActivity.kt:32-40 | the screen starts for its teacher with nothing shown |
| `TeacherActiveSessions.TeacherActiveSessionsScreen.LoadActiveSessions` | app/src/main/java/com/example/classlogger/ui/teacher/TeacherActiveSessionsActivity.kt:71-123 | the rows become the teacher's list of active sessions |
| `TeacherActiveSessions.TeacherActiveSessionsScreen.CloseSession` | app/src/main/java/com/example/classlogger/ui/teacher/TeacherActiveSessionsActivity.kt:143-162 | closing a missing session fails with "No document to update" and changes neither the sessions, the active index nor the list. Otherwise the session is closed in place, its active-index entry deleted, the list reloaded, and the list no longer holds it. The other collections are never written |
| `CreateSession.DecideCreate` | app/src/main/java/com/example/classlogger/ui/teacher/TeacherCreateSessionActivity.kt:362-437 | a session is created exactly when a classroom and a subject are selected, both times are set, the end is after the start, and the device passes the classroom's WiFi check. The created session carries the selection, the times and the device's detected SSID and BSSID |
| `CreateSession.RefusalFollowsCheckOrder` | app/src/main/java/com/example/classlogger/ui/teacher/TeacherCreateSessionActivity.kt:366-406 | the first failing check names the refusal, in the order classroom, subject, times set, end after start, current network, classroom's network; the wrong-network dialog shows the connected and the configured SSID |
| `CreateSession.CreatedSessionCarriesDeviceIdentity` | app/src/main/java/com/example/classlogger/ui/teacher/TeacherCreateSessionActivity.kt:387-423 | a created session stores the device's SSID (no quotes, not empty) and its lower-case BSSID, each equal up to case to the classroom's cleaned value; it is active with the window open |
| `CreateSession.FirstWhere` | app/src/main/java/com/example/classlogger/ui/teacher/TeacherCreateSessionActivity.kt:239-246 | `find`: the position of the first element satisfying the test; none exactly when no element does |
| `CreateSession.FindMatchingClassroom` | app/src/main/java/com/example/classlogger/ui/teacher/TeacherCreateSessionActivity.kt:239-246 | the position found is within the teacher's classroom list |
| `CreateSession.FindMatchingClassroomIsFirstMatch` | app/src/main/java/com/example/classlogger/ui/teacher/TeacherCreateSessionActivity.kt:239-246 | auto-selection finds the first classroom whose network matches, and none exactly when no classroom matches |
| `CreateSession.AutoSelection` | app/src/main/java/com/example/classlogger/ui/teacher/TeacherCreateSessionActivity.kt:226-275 | a failed classroom load keeps the selection; a changed selection is one of the loaded classrooms |
| `CreateSession.AutoSelectionPicksFirstMatch` | app/src/main/java/com/example/classlogger/ui/teacher/TeacherCreateSessionActivity.kt:248-252 | when classroom `k` is the first that matches the network, auto-selection settles on it |
| `CreateSession.AutoSelectionWithoutMatch` | app/src/main/java/com/example/classlogger/ui/teacher/TeacherCreateSessionActivity.kt:258-265 | without a matching classroom the selection stays as it was |
| `CreateSession.NetworkMatches` | app/src/main/java/com/example/classlogger/ui/teacher/TeacherCreateSessionActivity.kt:239-246 | a classroom matches the network exactly when the trimmed SSIDs agree once lower-cased and the trimmed, lower-cased BSSIDs are equal; quotes are not removed |
| `CreateSession.TrimKeepsOut` | app/src/main/java/com/example/classlogger/ui/teacher/TeacherCreateSessionActivity.kt:240 | trimming never introduces a character |
| `CreateSession.MatchedClassroomPassesCreateCheck` | app/src/main/java/com/example/classlogger/ui/teacher/TeacherCreateSessionActivity.kt:239-246 | a classroom auto-selected for the current network also passes the creation check on it, when its SSID holds no quote and the device's identity has no surrounding whitespace |
| `CreateSession.SubjectChoices` | app/src/main/java/com/example/classlogger/ui/teacher/TeacherCreateSessionActivity.kt:315-333 | the subject dialog offers only subjects the stored classroom lists, and nothing when the classroom document is missing |
| `CreateSession.CreatedSubjectBelongsToClassroom` | app/src/main/java/com/example/classlogger/ui/teacher/TeacherCreateSessionActivity.kt:362-423 | with the subject taken from the selected classroom's choices, a created session's subject is one its classroom offers |
| `CreateSession.StaleSubjectPassesGuard` | app/src/main/java/com/example/classlogger/ui/teacher/TeacherCreateSessionActivity.kt:289-304 | the creation guard accepts a subject chosen under another classroom: the session is created for a classroom that does not offer its subject |
| `CreateSession.CreateSessionScreen.constructor` | app/src/main/java/com/example/classlogger/ui/teacher/TeacherCreateSessionActivity.kt:35-39 | the screen starts with nothing selected and both times 0 |
| `CreateSession.CreateSessionScreen.PickStartTime` | app/src/main/java/com/example/classlogger/ui/teacher/TeacherCreateSessionActivity.kt:96-101 | the start picker stores the chosen time and changes nothing else |
| `CreateSession.CreateSessionScreen.PickEndTime` | app/src/main/java/com/example/classlogger/ui/teacher/TeacherCreateSessionActivity.kt:103-108 | the end picker stores the chosen time and changes nothing else |
| `CreateSession.CreateSessionScreen.AutoSelectClassroom` | app/src/main/java/com/example/classlogger/ui/teacher/TeacherCreateSessionActivity.kt:226-275 | the selection becomes the auto-selected classroom; subject and times are kept |
| `CreateSession.CreateSessionScreen.PickClassroom` | app/src/main/java/com/example/classlogger/ui/teacher/TeacherCreateSessionActivity.kt:289-304 | the classroom dialog as written: the picked classroom is selected and the earlier subject stays selected |
| `CreateSession.CreateSessionScreen.PickClassroomClearingSubject` | app/src/main/java/com/example/classlogger/ui/teacher/TeacherCreateSessionActivity.kt:289-304 | the classroom dialog as intended: the picked classroom is selected, the subject cleared, so the subject always belongs to the classroom |
| `CreateSession.CreateSessionScreen.PickSubject` | app/src/main/java/com/example/classlogger/ui/teacher/TeacherCreateSessionActivity.kt:88-94 | without a classroom the button gives "Please select classroom first"; when the classroom document is missing the fetch fails and nothing is shown or selected; a classroom without subjects gives "No subjects found for this classroom"; otherwise the picked subject, one the classroom offers, is selected; the subject is unchanged in every case but the last |
| `CreateSession.CreateSessionScreen.CreateSession` | app/src/main/java/com/example/classlogger/ui/teacher/TeacherCreateSessionActivity.kt:362-437 | only a create decision writes, and then exactly the new session to both collections; other decisions write nothing; the store's invariant is kept |
| `StudentAttendance.ThresholdInclusive` | app/src/main/java/com/example/classlogger/ui/student/StudentAttendanceActivity.kt:48 | a prediction is accepted only for this student and only at or above 0.7 confidence, the threshold itself included |
| `StudentAttendance.Accepts` | app/src/main/java/com/example/classlogger/ui/student/StudentAttendanceActivity.kt:373 | an accepted answer names this student and is stored as at least 70; a confidence below 0.7 is never accepted |
| `StudentAttendance.RejectionReason` | app/src/main/java/com/example/classlogger/ui/student/StudentAttendanceActivity.kt:396-401 | "no_face" and "unknown" get their own messages; any other label is named as a mismatch |
| `StudentAttendance.MismatchReasonsDistinct` | app/src/main/java/com/example/classlogger/ui/student/StudentAttendanceActivity.kt:396-401 | different mismatching labels give different messages |
| `StudentAttendance.MismatchReasonIsNotMissingFace` | app/src/main/java/com/example/classlogger/ui/student/StudentAttendanceActivity.kt:396-401 | a mismatch message never reads like the missing-face or the unknown-face message |
| `StudentAttendance.StoredScore` | app/src/main/java/com/example/classlogger/ui/student/StudentAttendanceActivity.kt:435 | the stored score is a whole percentage: between 0 and 100 for a confidence in [0, 1], and at least 70 for an accepted one |
| `StudentAttendance.SelfieRecord` | app/src/main/java/com/example/classlogger/ui/student/StudentAttendanceActivity.kt:425-437 | the document the screen adds: for the pair, with classroom, subject and subject name, present, by the student, not overridden, selfie under `selfieUrl`, score as a whole percentage |
| `StudentAttendance.SelfieRecordViewable` | app/src/main/java/com/example/classlogger/ui/student/StudentAttendanceActivity.kt:434 | a record this screen writes keeps its selfie where the teacher's list looks for it |
| `StudentAttendance.RepeatedSubmissionsDuplicate` | app/src/main/java/com/example/classlogger/ui/student/StudentAttendanceActivity.kt:439-442 | two accepted submissions leave two more documents for the pair, so the collection no longer has at most one per pair |
| `StudentAttendance.StudentOnTeacherNetworkPasses` | app/src/main/java/com/example/classlogger/ui/student/StudentAttendanceActivity.kt:116-122 | a student whose device reports the network the teacher's device reported at creation passes the session's network check, when SSID and BSSID have no surrounding whitespace |
| `StudentAttendance.AcceptedSubmissionShowsPresent` | app/src/main/java/com/example/classlogger/ui/student/StudentAttendanceActivity.kt:373-387 | for a pair without documents, an accepted submission makes the session's list show present and the subject counts find a present record |
| `StudentAttendance.StudentAttendanceScreen.constructor` | app/src/main/java/com/example/classlogger/ui/student/StudentAttendanceActivity.kt:34-60 | the screen starts for its student and session with no session details, no camera and no selfie |
| `StudentAttendance.StudentAttendanceScreen.LoadSessionDetails` | app/src/main/java/com/example/classlogger/ui/student/StudentAttendanceActivity.kt:88-145 | a missing session fails and changes nothing. Otherwise the session's classroom and subject are kept and the subject's name looked up ("Unknown Subject" when missing); the camera opens, recorded for that session and device reading, exactly when the reading passes the session's network check, and is left as it was otherwise |
| `StudentAttendance.StudentAttendanceScreen.OpenCamera` | app/src/main/java/com/example/classlogger/ui/student/StudentAttendanceActivity.kt:116-127 | the network gate: a failed check gives the WiFi error and leaves the camera as it was; a passed one opens it for the session; nothing else changes |
| `StudentAttendance.StudentAttendanceScreen.CaptureSelfie` | app/src/main/java/com/example/classlogger/ui/student/StudentAttendanceActivity.kt:220-221 | without an open camera nothing happens; with one the picture taken becomes the selfie; nothing else changes |
| `StudentAttendance.StudentAttendanceScreen.Retake` | app/src/main/java/com/example/classlogger/ui/student/StudentAttendanceActivity.kt:74-83 | retaking drops the selfie; nothing else changes |
| `StudentAttendance.StudentAttendanceScreen.SubmitAttendance` | app/src/main/java/com/example/classlogger/ui/student/StudentAttendanceActivity.kt:348-449 | without a selfie, or with a failed or rejected prediction, nothing is written and the matching message is given; an accepted prediction appends exactly the screen's record. A submission passes only with the camera open for this screen's session on a device reading that passed that session's network check, and an accepted answer; no other collection changes |
| `Login.ValidateLogin` | app/src/main/java/com/example/classlogger/ui/auth/LoginActivity.kt:69-88 | login passes exactly with a non-empty email and a password of at least six characters; an empty email is reported first |
| `Login.PasswordErrorsInOrder` | app/src/main/java/com/example/classlogger/ui/auth/LoginActivity.kt:77-82 | with an email, an empty password and a short one get different messages |
| `Login.LoginRequest` | app/src/main/java/com/example/classlogger/ui/auth/LoginActivity.kt:48-53 | sign-in receives the trimmed credentials exactly when they pass validation; otherwise the validation error is shown |
| `Login.LoginRequestIsTrimmed` | app/src/main/java/com/example/classlogger/ui/auth/LoginActivity.kt:48-53 | what reaches sign-in has no surrounding whitespace, a non-empty email and a password of at least six characters |
| `Login.LoginRequestStable` | app/src/main/java/com/example/classlogger/ui/auth/LoginActivity.kt:48-53 | submitting what reached sign-in again sends the same credentials |
| `Register.CheckForm` | app/src/main/java/com/example/classlogger/ui/auth/RegisterActivity.kt:211-269 | the form passes exactly when name, email and phone are given, a student also gives a roll number and a photo, the password has at least six characters and matches its confirmation; a failure names one of the form's messages |
| `Register.ValidateRegistration` | app/src/main/java/com/example/classlogger/ui/auth/RegisterActivity.kt:210-269 | `validateInput` passes exactly when the trimmed form is complete, and then the trimmed password has at least six characters and equals the trimmed confirmation |
| `Register.RegistrationErrorsInOrder` | app/src/main/java/com/example/classlogger/ui/auth/RegisterActivity.kt:218-266 | the first failing check decides, in the order name, email, phone, roll number, photo, password length, confirmation |
| `Register.TeacherNeedsNoRollOrPhoto` | app/src/main/java/com/example/classlogger/ui/auth/RegisterActivity.kt:239-252 | a teacher is never asked for a roll number or a photo |
| `Register.PasswordJudgedTrimmed` | app/src/main/java/com/example/classlogger/ui/auth/RegisterActivity.kt:215-216 | whitespace around the password and its confirmation does not change the verdict |
| `Register.NewTeacher` | app/src/main/java/com/example/classlogger/ui/auth/RegisterActivity.kt:285-298 | the teacher profile carries the form's name, email and phone and no classrooms |
| `Register.NewStudent` | app/src/main/java/com/example/classlogger/ui/auth/RegisterActivity.kt:320-346 | the student profile carries the form's fields, the encoding the face service returned, and no classrooms |
| `Register.RegisterTeacher` | app/src/main/java/com/example/classlogger/ui/auth/RegisterActivity.kt:285-298 | a failed account is reported and writes nothing; otherwise the profile is stored under the account id |
| `Register.StudentOutcome` | app/src/main/java/com/example/classlogger/ui/auth/RegisterActivity.kt:320-346 | registration passes exactly when the face service answered with success and the account was created; a failed or negative encoding is reported first |
| `Register.RegisterStudent` | app/src/main/java/com/example/classlogger/ui/auth/RegisterActivity.kt:309-347 | only a successful encoding and account store a profile, and it carries that encoding; otherwise nothing is written |
| `Register.RegisteredStudentIsComplete` | app/src/main/java/com/example/classlogger/ui/auth/RegisterActivity.kt:309-347 | a stored student profile always passed the student checks: name, email, phone and roll number present, no classrooms, the service's encoding |
| `Register.RegisterScreen.constructor` | app/src/main/java/com/example/classlogger/ui/auth/RegisterActivity.kt:35-51 | the screen starts for a teacher or a student with no photo |
| `Register.RegisterScreen.CapturePhoto` | app/src/main/java/com/example/classlogger/ui/auth/RegisterActivity.kt:160-179 | the captured picture becomes the photo |
| `Register.RegisterScreen.RetakePhoto` | app/src/main/java/com/example/classlogger/ui/auth/RegisterActivity.kt:75-82 | retaking drops the photo |
| `Register.RegisterScreen.Register` | app/src/main/java/com/example/classlogger/ui/auth/RegisterActivity.kt:271-307 | `register` acts on the trimmed form: a failed check writes nothing; a teacher's profile or a student's, as the branches decide; no other collection changes |
| `Register.RegisterScreen.RegisterTrimmed` | app/src/main/java/com/example/classlogger/ui/auth/RegisterActivity.kt:271-307 | the same on already-trimmed fields: the checks first, then the teacher or the student branch |
| `FaceNetApi.NormalizeBaseUrl` | app/src/main/java/com/example/classlogger/network/FaceNetApi.kt:58-60 | the URL set always ends with "/": kept when it already does, one slash appended otherwise |
| `FaceNetApi.NormalizeIdempotent` | app/src/main/java/com/example/classlogger/network/FaceNetApi.kt:58-60 | normalising twice is normalising once; the given URL is a prefix of the result, at most one character shorter |
| `FaceNetApi.NormalizeCollapsesOnlyFinalSlash` | app/src/main/java/com/example/classlogger/network/FaceNetApi.kt:58-60 | two URLs normalise alike only when they differ at most by a final slash |
| `FaceNetApi.InitialBaseUrlLacksSlash` | app/src/main/java/com/example/classlogger/network/FaceNetApi.kt:56 | the initial URL has no trailing slash |
| `FaceNetApi.FaceNetApiClient.constructor` | app/src/main/java/com/example/classlogger/network/FaceNetApi.kt:56 | the client starts with the initial URL and no built HTTP client |
| `FaceNetApi.FaceNetApiClient.SetBaseUrl` | app/src/main/java/com/example/classlogger/network/FaceNetApi.kt:58-60 | the stored URL becomes the normalised one; an already built client keeps its own |
| `FaceNetApi.FaceNetApiClient.GetBaseUrl` | app/src/main/java/com/example/classlogger/network/FaceNetApi.kt:62 | the last URL set, or the initial one; either way it ends with "/" or is the initial URL |
| `FaceNetApi.FaceNetApiClient.Api` | app/src/main/java/com/example/classlogger/network/FaceNetApi.kt:75-85 | the first use builds the client from the URL of that moment; every later use returns that same client, whatever was set since |

## Left out

- Concurrency: coroutines, listeners and the order in which asynchronous calls finish are not modelled. Each operation runs to completion on one state.
- Networking, storage and failures of the remote store: reads and writes of the store always succeed, except where the platform refuses an update of a missing document. A failed `markAttendanceWithSubject` write (shown as "Failed to mark attendance.") is not modelled.
- The identity service (sign-in and account creation) is a parameter: an account id or a failure message. The login sign-in call and the dashboards that follow it are not part of this model.
- The face service's HTTP calls, Retrofit's own URL validation and `FaceRecognitionRepository` are left out. A prediction or encoding is a parameter. A successful call with a null body ("Invalid response from server.") is folded into a failed prediction.
- Camera, bitmaps, JPEG and Base64 encoding: a selfie or photo is an opaque string. Camera permission is taken as granted.
- Clock, generated document ids and the current date are parameters (`now`, `sessionId`, `today`). Date and time formatting for display is left out.
- Floating point: the 0.7 threshold and confidences are reals, and percentages are exact reals rather than 32-bit floats. `String.format("%.1f%%")` rounding is not modelled.
- Case mapping covers ASCII letters only; Kotlin's full Unicode `lowercase()` is not modelled.
- `Login.ValidateLogin`: a string is a sequence of Unicode characters, so the six-character password minimum counts characters. Kotlin's `length` counts UTF-16 code units, so a password of three characters outside the Basic Multilingual Plane (six code units) passes in the app but is refused here.
- `Register.CheckForm`: the same character-versus-UTF-16-unit difference applies to its six-character password minimum.
- Firestore's `whereIn` limit on list size and its failure on an empty list are not modelled. `getActiveSessionsForStudent` with no classrooms yields an empty list here.
- `getTeacherClassrooms` is not modelled as a query; the screens receive the teacher's classrooms (or a load failure) as a parameter.
- The platform's WiFi readings are one snapshot per operation. Two reads that could see different states in the app see the same one here.
- Dialogs, toasts, progress bars, colours and navigation are left out, except the messages and the percentage colour band.
- `Ledger.FirstRecordIndex`: "first in store order" is insertion order here, because setting a new key appends it. Firestore answers `whereEqualTo(...).limit(1)` in document-id order, and generated ids are random. So when a pair has duplicate records, which one the app shows is not fixed by the order of the writes.
- `Ledger.RecordOrAbsent`: the shown record is the first in insertion order, with the same caveat about Firestore's id order.
- `Ledger.DuplicateRecordsDisagree`: the earlier record hides the later one in insertion order; in Firestore either may come first.
- `StudentSubjectDetail.FirstSubjectNamed`: the subject found first in insertion order; Firestore's order for `limit(1)` is by document id.
- `History.SortByStart`: stability of `sortByDescending` (equal start times keep their order) is not stated; only newest-first order and permutation are proved.
- `StudentSubjectDetail.StudentHistoryDistinct`: proved only when the student's classroom list has no repeats; the app does not enforce that.
- `TeacherActiveSessions.ActiveListFor`: the query's status filter is on the stored name; the model filters on the decoded status, which agrees for every stored session since only the two names are ever written.
- Dashboards, `StudentActiveSessionsActivity` and `StudentAttendanceHistoryActivity` are presentation over the repository operations modelled here and are not part of this model.

## Findings

| source | as written | input that shows it | evidently intended | confidence | as-written member | corrected member |
|---|---|---|---|---|---|---|
| app/src/main/java/com/example/classlogger/ui/teacher/TeacherCreateSessionActivity.kt:289-304 | picking a classroom in the dialog keeps the subject chosen earlier, as does auto-selection by network at lines 248-252, and the creation guard at lines 366-374 checks only that a subject is selected | pick classroom A, pick subject S of A, pick classroom B whose subjects do not include S; on B's network with valid times, "create" writes a session for B with subject S | picking a classroom clears the subject, so a session's subject always belongs to its classroom | not executed | `CreateSession.StaleSubjectPassesGuard` | `CreateSession.CreatedSubjectBelongsToClassroom` |
