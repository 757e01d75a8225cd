/** Bulk ingestion of one spreadsheet (the upload handler). For one meeting and one
    kind it replaces the meeting's rows in that kind's table: it deletes them, then
    reads each input row through ordered lists of column-name variants, and either
    inserts the row or records one numbered error and goes on; finally it points the
    manifest column of that kind at the backup file. */
module UploadFile {
  import opened Php
  import opened Schema
  import opened Helpers

  // ---------------------------------------------------------------- column-name variants

  const NameKeys := ["Name", "name", "participant_name"]
  const DesignationKeys := ["Designation", "designation", "Department", "department"]
  const BlockKeys := ["Block", "block", "Location", "location"]
  const PhoneKeys := ["Phone", "phone", "mobile", "Mobile"]
  const LoginTimeKeys := ["Login Time", "login_time", "Login_Time"]
  const DurationKeys := ["Duration", "duration", "attended_time", "Attended_Time"]
  const TestNameKeys := ["Name", "name"]
  const DepartmentKeys := ["Department", "department"]
  const ScoreKeys := ["Score", "score"]
  const TotalMarksKeys := ["Total Marks", "total_marks", "Total"]

  const UploadsDir := "medi_uploads/"
  const InvalidParameters := "Invalid parameters. meetingId, type, and data are required."
  const InvalidFileType := "Invalid file type. Must be pretest, attendance, posttest, or registered."
  const WarningText := "Some rows could not be processed. Check errors for details."

  // ---------------------------------------------------------------- total marks

  /** The total marks stored for a test row: an explicit nonzero total is kept; when
      the sheet gives none (0), the smallest of 20, 50 and 100 that is not below the
      score is taken, and a score above 100 is its own total. */
  function InferTotalMarks(score: int, total: int): (r: int)
    ensures total != 0 ==> r == total
    ensures total == 0 ==> r > 0 && r >= score
    ensures total == 0 && score > 100 ==> r == score
    ensures total == 0 && score <= 100 ==>
      (r == 20 || r == 50 || r == 100) && (r == 50 ==> score > 20) && (r == 100 ==> score > 50)
  {
    if total == 0 then
      if score <= 20 then 20
      else if score <= 50 then 50
      else if score <= 100 then 100
      else score
    else total
  }

  /** The three worked cases: 15 out of an unknown total is marked out of 20, 35 out
      of 50, and 150 out of 150. */
  lemma InferTotalMarksExamples()
    ensures InferTotalMarks(15, 0) == 20
    ensures InferTotalMarks(35, 0) == 50
    ensures InferTotalMarks(150, 0) == 150
    ensures InferTotalMarks(15, 30) == 30
  {
  }

  // ---------------------------------------------------------------- one row

  /** The fate of one input row: inserted as `record`, or skipped for `reason`. */
  datatype Verdict<R> = Accept(record: R) | Reject(reason: string)

  /** A `registered` row: Name, then Designation, must be non-empty after trimming;
      an accepted row carries the meeting id and both non-empty fields. */
  function RegisteredVerdict(meetingId: string, row: Row): (v: Verdict<Registrant>)
    ensures v.Accept? ==> v.record.mId == meetingId && !Empty(v.record.name) && !Empty(v.record.designation)
  {
    var name := FieldText(row, NameKeys);
    var designation := FieldText(row, DesignationKeys);
    var block := FieldText(row, BlockKeys);
    var phone := FieldText(row, PhoneKeys);
    if Empty(name) then Reject("Name is required")
    else if Empty(designation) then Reject("Designation is required")
    else Accept(Registrant(meetingId, name, designation, block, phone))
  }

  /** An `attendance` row: Name, then Login Time, then Duration, must be non-empty; an
      accepted row is stamped with the uploader and the time of the upload. */
  function AttendanceVerdict(meetingId: string, userId: string, now: int, row: Row): (v: Verdict<AttendanceRecord>)
    ensures v.Accept? ==>
      && v.record.meetingId == meetingId && v.record.uploadedBy == userId && v.record.recordedAt == now
      && !Empty(v.record.participantName) && !Empty(v.record.loginTime) && !Empty(v.record.attendedTime)
  {
    var name := FieldText(row, NameKeys);
    var loginTime := FieldText(row, LoginTimeKeys);
    var attendedTime := FieldText(row, DurationKeys);
    if Empty(name) then Reject("Name is required")
    else if Empty(loginTime) then Reject("Login Time is required")
    else if Empty(attendedTime) then Reject("Duration is required")
    else Accept(AttendanceRecord(meetingId, name, loginTime, attendedTime, userId, now))
  }

  /** A `pretest`/`posttest` row: Name must be non-empty, then the score must not be
      negative; the total marks are inferred before either check, so a stored result
      never has a zero total. */
  function TestVerdict(meetingId: string, userId: string, now: int, row: Row): (v: Verdict<TestResult>)
    ensures v.Accept? ==>
      && v.record.meetingId == meetingId && v.record.uploadedBy == userId && v.record.recordedAt == now
      && !Empty(v.record.name) && v.record.score >= 0 && v.record.totalMarks != 0
  {
    var name := FieldText(row, TestNameKeys);
    var department := FieldText(row, DepartmentKeys);
    var score := CellNumber(Coalesce(row, ScoreKeys));
    var totalMarks := InferTotalMarks(score, CellNumber(Coalesce(row, TotalMarksKeys)));
    if Empty(name) then Reject("Name is required")
    else if score < 0 then Reject("Score cannot be negative")
    else Accept(TestResult(meetingId, name, department, score, totalMarks, userId, now))
  }

  /** The checks run in order and the first that fails names the row's error: a row
      without a name is refused for that, whatever else it lacks. */
  lemma FirstFailingCheckReported(meetingId: string, userId: string, now: int, row: Row)
    ensures Empty(FieldText(row, NameKeys)) ==>
      && RegisteredVerdict(meetingId, row) == Reject("Name is required")
      && AttendanceVerdict(meetingId, userId, now, row) == Reject("Name is required")
    ensures Empty(FieldText(row, TestNameKeys)) ==>
      TestVerdict(meetingId, userId, now, row) == Reject("Name is required")
    ensures !Empty(FieldText(row, NameKeys)) && Empty(FieldText(row, DesignationKeys)) ==>
      RegisteredVerdict(meetingId, row) == Reject("Designation is required")
    ensures !Empty(FieldText(row, NameKeys)) && Empty(FieldText(row, LoginTimeKeys)) ==>
      AttendanceVerdict(meetingId, userId, now, row) == Reject("Login Time is required")
    ensures (!Empty(FieldText(row, NameKeys)) && !Empty(FieldText(row, LoginTimeKeys))
             && Empty(FieldText(row, DurationKeys))) ==>
      AttendanceVerdict(meetingId, userId, now, row) == Reject("Duration is required")
    ensures !Empty(FieldText(row, TestNameKeys)) && CellNumber(Coalesce(row, ScoreKeys)) < 0 ==>
      TestVerdict(meetingId, userId, now, row) == Reject("Score cannot be negative")
  {
  }

  /** A row that passes every check is stored with its fields as read, and a test row
      whose sheet gives no total is marked out of at least its score. */
  lemma AcceptedRowsAsRead(meetingId: string, userId: string, now: int, row: Row)
    ensures !Empty(FieldText(row, NameKeys)) && !Empty(FieldText(row, DesignationKeys)) ==>
      RegisteredVerdict(meetingId, row) == Accept(Registrant(meetingId, FieldText(row, NameKeys),
        FieldText(row, DesignationKeys), FieldText(row, BlockKeys), FieldText(row, PhoneKeys)))
    ensures (!Empty(FieldText(row, NameKeys)) && !Empty(FieldText(row, LoginTimeKeys))
             && !Empty(FieldText(row, DurationKeys))) ==>
      AttendanceVerdict(meetingId, userId, now, row) == Accept(AttendanceRecord(meetingId,
        FieldText(row, NameKeys), FieldText(row, LoginTimeKeys), FieldText(row, DurationKeys), userId, now))
    ensures var score := CellNumber(Coalesce(row, ScoreKeys));
      !Empty(FieldText(row, TestNameKeys)) && score >= 0 ==>
      TestVerdict(meetingId, userId, now, row) == Accept(TestResult(meetingId,
        FieldText(row, TestNameKeys), FieldText(row, DepartmentKeys), score,
        InferTotalMarks(score, CellNumber(Coalesce(row, TotalMarksKeys))), userId, now))
  {
  }

  /** A present but blank `Name` column shadows a filled-in `name`: the row is refused. */
  lemma BlankNameShadows(meetingId: string, row: Row, blank: string)
    requires "Name" in row && row["Name"] == Scalar(blank, 0)
    requires forall i :: 0 <= i < |blank| ==> IsTrimChar(blank[i])
    ensures RegisteredVerdict(meetingId, row) == Reject("Name is required")
  {
    BlankTrimsToEmpty(blank);
    FirstSetKeyDecides(row, NameKeys, 0);
  }

  // ---------------------------------------------------------------- a batch of rows

  /** The verdicts on the rows of a `registered` sheet, row by row. */
  function RegisteredVerdicts(meetingId: string, data: seq<Row>): (vs: seq<Verdict<Registrant>>)
    ensures |vs| == |data|
    ensures forall i :: 0 <= i < |data| ==> vs[i] == RegisteredVerdict(meetingId, data[i])
  {
    if data == [] then []
    else RegisteredVerdicts(meetingId, data[..|data| - 1]) + [RegisteredVerdict(meetingId, data[|data| - 1])]
  }

  /** The verdicts on the rows of an `attendance` sheet, row by row. */
  function AttendanceVerdicts(meetingId: string, userId: string, now: int, data: seq<Row>)
    : (vs: seq<Verdict<AttendanceRecord>>)
    ensures |vs| == |data|
    ensures forall i :: 0 <= i < |data| ==> vs[i] == AttendanceVerdict(meetingId, userId, now, data[i])
  {
    if data == [] then []
    else
      AttendanceVerdicts(meetingId, userId, now, data[..|data| - 1])
      + [AttendanceVerdict(meetingId, userId, now, data[|data| - 1])]
  }

  /** The verdicts on the rows of a `pretest` or `posttest` sheet, row by row. */
  function TestVerdicts(meetingId: string, userId: string, now: int, data: seq<Row>): (vs: seq<Verdict<TestResult>>)
    ensures |vs| == |data|
    ensures forall i :: 0 <= i < |data| ==> vs[i] == TestVerdict(meetingId, userId, now, data[i])
  {
    if data == [] then []
    else
      TestVerdicts(meetingId, userId, now, data[..|data| - 1])
      + [TestVerdict(meetingId, userId, now, data[|data| - 1])]
  }

  /** The error recorded for the row at `index`: rows are numbered from 2, the
      spreadsheet's header being row 1. */
  function ErrorLine(index: nat, reason: string): string {
    "Row " + NatToString(index + 2) + ": " + reason
  }

  /** An error line reads `Row `, then the decimal digits of `index + 2`, then `: `
      and the reason. */
  lemma ErrorLineNamesRow(index: nat, reason: string)
    ensures var e := ErrorLine(index, reason);
      var n := |e| - |reason| - 2;
      && 4 < n && e[..4] == "Row " && e[n..] == ": " + reason
      && AllDigits(e[4..n]) && DigitsValue(e[4..n]) == index + 2
  {
    var digits := NatToString(index + 2);
    NatToStringRoundTrip(index + 2);
    var e := ErrorLine(index, reason);
    assert e[4..4 + |digits|] == digits;
  }

  /** The records inserted, in input order. */
  function Accepted<R>(vs: seq<Verdict<R>>): (r: seq<R>)
    ensures |r| <= |vs|
  {
    if vs == [] then []
    else
      var last := vs[|vs| - 1];
      Accepted(vs[..|vs| - 1]) + (if last.Accept? then [last.record] else [])
  }

  /** The error list, in input order: every row that is not inserted adds exactly one
      line, so inserted and errored rows together account for every input row. */
  function RowErrors<R>(vs: seq<Verdict<R>>): (r: seq<string>)
    ensures |r| <= |vs|
  {
    if vs == [] then []
    else
      var last := vs[|vs| - 1];
      RowErrors(vs[..|vs| - 1]) + (if last.Reject? then [ErrorLine(|vs| - 1, last.reason)] else [])
  }

  /** Inserted and refused rows together account for every input row. */
  lemma {:induction false} EveryRowAccounted<R>(vs: seq<Verdict<R>>)
    ensures |Accepted(vs)| + |RowErrors(vs)| == |vs|
  {
    if vs != [] {
      EveryRowAccounted(vs[..|vs| - 1]);
    }
  }

  lemma BatchStep<R>(vs: seq<Verdict<R>>, i: nat)
    requires i < |vs|
    ensures Accepted(vs[..i + 1]) == Accepted(vs[..i]) + (if vs[i].Accept? then [vs[i].record] else [])
    ensures RowErrors(vs[..i + 1]) == RowErrors(vs[..i]) + (if vs[i].Reject? then [ErrorLine(i, vs[i].reason)] else [])
  {
    assert vs[..i + 1][..i] == vs[..i];
  }

  /** A record is inserted exactly when some row's verdict accepts it. */
  lemma {:induction false} AcceptedMembers<R>(vs: seq<Verdict<R>>, x: R)
    ensures x in Accepted(vs) <==> Accept(x) in vs
  {
    if vs != [] {
      var init := vs[..|vs| - 1];
      AcceptedMembers(init, x);
      assert vs == init + [vs[|vs| - 1]];
    }
  }

  /** The error list holds exactly one line per refused row, naming that row. */
  lemma {:induction false} ErrorLinesExact<R>(vs: seq<Verdict<R>>, e: string)
    ensures e in RowErrors(vs) <==>
      exists i :: 0 <= i < |vs| && vs[i].Reject? && e == ErrorLine(i, vs[i].reason)
  {
    if vs != [] {
      var n := |vs| - 1;
      var init := vs[..n];
      ErrorLinesExact(init, e);
      assert forall i :: 0 <= i < n ==> init[i] == vs[i];
    }
  }

  /** Every stored test result has a non-zero total. */
  lemma AcceptedTestTotals(meetingId: string, userId: string, now: int, data: seq<Row>)
    ensures forall x :: x in Accepted(TestVerdicts(meetingId, userId, now, data)) ==> x.totalMarks != 0
  {
    var vs := TestVerdicts(meetingId, userId, now, data);
    forall x: TestResult | x in Accepted(vs) ensures x.totalMarks != 0 {
      AcceptedMembers(vs, x);
      var k :| 0 <= k < |vs| && vs[k] == Accept(x);
      assert TestVerdict(meetingId, userId, now, data[k]) == Accept(x);
    }
  }

  /** Every inserted record belongs to the uploaded meeting. */
  lemma AcceptedBelongToMeeting(meetingId: string, userId: string, now: int, data: seq<Row>)
    ensures forall x :: x in Accepted(RegisteredVerdicts(meetingId, data)) ==> x.mId == meetingId
    ensures forall x :: x in Accepted(AttendanceVerdicts(meetingId, userId, now, data)) ==> x.meetingId == meetingId
    ensures forall x :: x in Accepted(TestVerdicts(meetingId, userId, now, data)) ==> x.meetingId == meetingId
  {
    forall x | x in Accepted(RegisteredVerdicts(meetingId, data)) ensures x.mId == meetingId {
      AcceptedMembers(RegisteredVerdicts(meetingId, data), x);
    }
    forall x | x in Accepted(AttendanceVerdicts(meetingId, userId, now, data)) ensures x.meetingId == meetingId {
      AcceptedMembers(AttendanceVerdicts(meetingId, userId, now, data), x);
    }
    forall x | x in Accepted(TestVerdicts(meetingId, userId, now, data)) ensures x.meetingId == meetingId {
      AcceptedMembers(TestVerdicts(meetingId, userId, now, data), x);
    }
  }

  /** What the row loop reports for a kind: rows inserted and the error lines. */
  datatype Batch = Batch(processed: nat, errors: seq<string>)

  /** What the row loop reports for the verdicts `vs`. */
  function BatchOfVerdicts<R>(vs: seq<Verdict<R>>): (b: Batch)
    ensures b.processed + |b.errors| == |vs|
  {
    EveryRowAccounted(vs);
    Batch(|Accepted(vs)|, RowErrors(vs))
  }

  function BatchOf(kind: Kind, meetingId: string, userId: string, now: int, data: seq<Row>): (b: Batch)
    ensures b.processed + |b.errors| == |data|
  {
    match kind
    case Registered => BatchOfVerdicts(RegisteredVerdicts(meetingId, data))
    case Attendance => BatchOfVerdicts(AttendanceVerdicts(meetingId, userId, now, data))
    case _ => BatchOfVerdicts(TestVerdicts(meetingId, userId, now, data))
  }

  // ---------------------------------------------------------------- manifest

  /** The backup file name `{type}_{meetingId}_{userId}_{timestamp}.json`. */
  function BackupName(fileType: string, meetingId: string, userId: string, timestamp: nat): (name: string)
    ensures |name| > |fileType| + |meetingId| + |userId| + 8
    ensures name[..|fileType| + 1] == fileType + "_" && name[|name| - 5..] == ".json"
  {
    var name := fileType + "_" + meetingId + "_" + userId + "_" + NatToString(timestamp) + ".json";
    assert name[..|fileType| + 1] == fileType + "_";
    name
  }

  /** The backup name is the type, meeting id and user id joined by `_`, then `_`, the
      decimal digits of the timestamp and `.json`. */
  lemma BackupNameReadsBack(fileType: string, meetingId: string, userId: string, timestamp: nat)
    ensures var name := BackupName(fileType, meetingId, userId, timestamp);
      var k := |fileType| + |meetingId| + |userId| + 3;
      && k < |name| - 5
      && name == fileType + "_" + meetingId + "_" + userId + "_" + name[k..|name| - 5] + ".json"
      && AllDigits(name[k..|name| - 5]) && DigitsValue(name[k..|name| - 5]) == timestamp
  {
    var digits := NatToString(timestamp);
    NatToStringRoundTrip(timestamp);
    var name := BackupName(fileType, meetingId, userId, timestamp);
    var k := |fileType| + |meetingId| + |userId| + 3;
    assert name[k..|name| - 5] == digits;
  }

  /** `INSERT INTO files (m_id, <col>, created_at) ... ON DUPLICATE KEY UPDATE`: only the
      column of the uploaded kind and `created_at` change; a new row has NULL elsewhere. */
  function Upsert(files: map<string, Manifest>, meetingId: string, kind: Kind, url: string, now: int)
    : (r: map<string, Manifest>)
    ensures meetingId in r && r[meetingId].Url(kind) == Some(url) && r[meetingId].createdAt == now
    ensures forall k :: k != kind ==>
      r[meetingId].Url(k) == if meetingId in files then files[meetingId].Url(k) else None
    ensures forall id :: id != meetingId ==> (id in r <==> id in files)
    ensures forall id :: id != meetingId && id in files ==> r[id] == files[id]
  {
    var row := if meetingId in files then files[meetingId] else Manifest(None, None, None, None, now);
    var row' := match kind
      case Registered => row.(registeredUrl := Some(url), createdAt := now)
      case Attendance => row.(attendUrl := Some(url), createdAt := now)
      case Pretest => row.(preUrl := Some(url), createdAt := now)
      case Posttest => row.(postUrl := Some(url), createdAt := now);
    files[meetingId := row']
  }

  /** Recording the same backup twice leaves the manifest as recording it once. */
  lemma UpsertIdempotent(files: map<string, Manifest>, meetingId: string, kind: Kind, url: string, now: int)
    ensures Upsert(Upsert(files, meetingId, kind, url, now), meetingId, kind, url, now)
         == Upsert(files, meetingId, kind, url, now)
  {
    var once := Upsert(files, meetingId, kind, url, now);
    var twice := Upsert(once, meetingId, kind, url, now);
    assert twice.Keys == once.Keys;
    assert twice[meetingId] == once[meetingId];
  }

  // ---------------------------------------------------------------- the whole upload

  /** The response body of a successful upload. */
  datatype UploadSummary = UploadSummary(
    message: string, processedCount: nat, totalCount: nat, fileName: string,
    savedFile: string, filePath: string, errors: seq<string>, warning: Option<string>)

  /** `ucfirst($fileType)`. */
  function KindTitle(k: Kind): (title: string)
    ensures |title| == |KindName(k)| && title[1..] == KindName(k)[1..]
    ensures 'A' <= title[0] <= 'Z' && title[0] as int == KindName(k)[0] as int - 32
  {
    match k
    case Registered => "Registered"
    case Attendance => "Attendance"
    case Pretest => "Pretest"
    case Posttest => "Posttest"
  }

  /** The handler's reply, from its inputs alone: 400 for missing parameters or an
      unknown type, otherwise 200 with counts that account for every row and a warning
      exactly when some row was refused. */
  function UploadOutcome(meetingId: string, fileType: string, data: seq<Row>, fileName: string,
                         userId: string, now: nat): (r: Result<Response<UploadSummary>>)
    ensures r.Err? <==>
      Empty(meetingId) || Empty(fileType) || data == [] || ParseKind(fileType).None?
    ensures r.Err? ==> r.code == 400
    ensures (Empty(meetingId) || Empty(fileType) || data == []) ==> r == Err(400, InvalidParameters)
    ensures r.Ok? ==>
      && r.value.code == 200
      && r.value.body.processedCount + |r.value.body.errors| == r.value.body.totalCount == |data|
      && (r.value.body.warning.Some? <==> r.value.body.errors != [])
      && r.value.body.savedFile == BackupName(fileType, meetingId, userId, now)
  {
    if Empty(meetingId) || Empty(fileType) || |data| == 0 then Err(400, InvalidParameters)
    else
      match ParseKind(fileType)
      case None => Err(400, InvalidFileType)
      case Some(kind) =>
        var saved := BackupName(fileType, meetingId, userId, now);
        var b := BatchOf(kind, meetingId, userId, now, data);
        var message := KindTitle(kind) + " data processed successfully";
        Ok(Response(200, UploadSummary(
          if b.errors == [] then message else message + " with some errors",
          b.processed, |data|, fileName, saved, UploadsDir + saved, b.errors,
          if b.errors == [] then None else Some(WarningText))))
  }

  /** The tables after a successful upload of `kind`. */
  function UploadEffect(t: Tables, meetingId: string, kind: Kind, userId: string, now: nat, data: seq<Row>): Tables {
    var files := Upsert(t.files, meetingId, kind, BackupName(KindName(kind), meetingId, userId, now), now);
    match kind
    case Registered =>
      t.(registered := NotOfMeeting(t.registered, RegistrantMeeting, meetingId)
                       + Accepted(RegisteredVerdicts(meetingId, data)),
         files := files)
    case Attendance =>
      t.(attendance := NotOfMeeting(t.attendance, AttendanceMeeting, meetingId)
                       + Accepted(AttendanceVerdicts(meetingId, userId, now, data)),
         files := files)
    case Pretest =>
      t.(pretest := NotOfMeeting(t.pretest, ResultMeeting, meetingId)
                    + Accepted(TestVerdicts(meetingId, userId, now, data)),
         files := files)
    case Posttest =>
      t.(posttest := NotOfMeeting(t.posttest, ResultMeeting, meetingId)
                     + Accepted(TestVerdicts(meetingId, userId, now, data)),
         files := files)
  }

  /** Upload means replace: afterwards the kind's table holds, for this meeting, exactly
      the rows that passed validation (as many as the reply's processed count), every
      other meeting's rows are as before, and no other table changes. */
  lemma UploadReplaces(t: Tables, meetingId: string, kind: Kind, userId: string, now: nat, data: seq<Row>)
    ensures var t' := UploadEffect(t, meetingId, kind, userId, now, data);
      && t'.users == t.users && t'.meetings == t.meetings && t'.nextMeetingId == t.nextMeetingId
      && (kind == Registered ==>
            OfMeeting(t'.registered, RegistrantMeeting, meetingId) == Accepted(RegisteredVerdicts(meetingId, data))
            && NotOfMeeting(t'.registered, RegistrantMeeting, meetingId) == NotOfMeeting(t.registered, RegistrantMeeting, meetingId))
      && (kind == Attendance ==>
            OfMeeting(t'.attendance, AttendanceMeeting, meetingId) == Accepted(AttendanceVerdicts(meetingId, userId, now, data))
            && NotOfMeeting(t'.attendance, AttendanceMeeting, meetingId) == NotOfMeeting(t.attendance, AttendanceMeeting, meetingId))
      && (kind == Pretest ==>
            OfMeeting(t'.pretest, ResultMeeting, meetingId) == Accepted(TestVerdicts(meetingId, userId, now, data))
            && NotOfMeeting(t'.pretest, ResultMeeting, meetingId) == NotOfMeeting(t.pretest, ResultMeeting, meetingId))
      && (kind == Posttest ==>
            OfMeeting(t'.posttest, ResultMeeting, meetingId) == Accepted(TestVerdicts(meetingId, userId, now, data))
            && NotOfMeeting(t'.posttest, ResultMeeting, meetingId) == NotOfMeeting(t.posttest, ResultMeeting, meetingId))
      && (kind != Registered ==> t'.registered == t.registered)
      && (kind != Attendance ==> t'.attendance == t.attendance)
      && (kind != Pretest ==> t'.pretest == t.pretest)
      && (kind != Posttest ==> t'.posttest == t.posttest)
      && RowCount(t', kind, meetingId) == BatchOf(kind, meetingId, userId, now, data).processed
  {
    AcceptedBelongToMeeting(meetingId, userId, now, data);
    match kind
    case Registered =>
      ReplaceMeetingRows(t.registered, Accepted(RegisteredVerdicts(meetingId, data)), RegistrantMeeting, meetingId);
    case Attendance =>
      ReplaceMeetingRows(t.attendance, Accepted(AttendanceVerdicts(meetingId, userId, now, data)), AttendanceMeeting, meetingId);
    case Pretest =>
      ReplaceMeetingRows(t.pretest, Accepted(TestVerdicts(meetingId, userId, now, data)), ResultMeeting, meetingId);
    case Posttest =>
      ReplaceMeetingRows(t.posttest, Accepted(TestVerdicts(meetingId, userId, now, data)), ResultMeeting, meetingId);
  }

  /** The reply's `processed_count` is the number of rows the meeting holds for the
      kind afterwards, and its `errors` are those of the row loop. */
  lemma ReplyMatchesTables(t: Tables, meetingId: string, fileType: string, data: seq<Row>, fileName: string,
                           userId: string, now: nat)
    requires UploadOutcome(meetingId, fileType, data, fileName, userId, now).Ok?
    ensures var kind := ParseKind(fileType).value;
      var body := UploadOutcome(meetingId, fileType, data, fileName, userId, now).value.body;
      && body.processedCount == RowCount(UploadEffect(t, meetingId, kind, userId, now, data), kind, meetingId)
      && body.errors == BatchOf(kind, meetingId, userId, now, data).errors
  {
    UploadReplaces(t, meetingId, ParseKind(fileType).value, userId, now, data);
  }

  /** Re-uploading replaces rather than merges: uploading the same sheet twice leaves
      the same tables as uploading it once. */
  lemma UploadIdempotent(t: Tables, meetingId: string, kind: Kind, userId: string, now: nat, data: seq<Row>)
    ensures var once := UploadEffect(t, meetingId, kind, userId, now, data);
      UploadEffect(once, meetingId, kind, userId, now, data) == once
  {
    UploadReplaces(t, meetingId, kind, userId, now, data);
    UpsertIdempotent(t.files, meetingId, kind, BackupName(KindName(kind), meetingId, userId, now), now);
  }

  // ---------------------------------------------------------------- the handler, in place

  /** The `registered` branch, given the verdicts on the sheet's rows: delete the
      meeting's registrants, then insert or refuse each row in turn. */
  method ReplaceRegistered(db: Database, meetingId: string, vs: seq<Verdict<Registrant>>) returns (b: Batch)
    modifies db
    ensures db.State() == old(db.State()).(registered :=
      NotOfMeeting(old(db.registered), RegistrantMeeting, meetingId) + Accepted(vs))
    ensures b == BatchOfVerdicts(vs)
  {
    db.registered := NotOfMeeting(db.registered, RegistrantMeeting, meetingId);
    ghost var kept := db.registered;
    var processed: nat, errors: seq<string> := 0, [];
    for i := 0 to |vs|
      invariant db.registered == kept + Accepted(vs[..i])
      invariant db.users == old(db.users) && db.meetings == old(db.meetings)
      invariant db.nextMeetingId == old(db.nextMeetingId) && db.attendance == old(db.attendance)
      invariant db.pretest == old(db.pretest) && db.posttest == old(db.posttest) && db.files == old(db.files)
      invariant processed + |errors| == i && errors == RowErrors(vs[..i])
    {
      BatchStep(vs, i);
      match vs[i]
      case Reject(reason) =>
        errors := errors + [ErrorLine(i, reason)];
      case Accept(record) =>
        db.registered := db.registered + [record];
        processed := processed + 1;
    }
    assert vs[..|vs|] == vs;
    EveryRowAccounted(vs);
    b := Batch(processed, errors);
  }

  /** The `attendance` branch. */
  method ReplaceAttendance(db: Database, meetingId: string, vs: seq<Verdict<AttendanceRecord>>) returns (b: Batch)
    modifies db
    ensures db.State() == old(db.State()).(attendance :=
      NotOfMeeting(old(db.attendance), AttendanceMeeting, meetingId) + Accepted(vs))
    ensures b == BatchOfVerdicts(vs)
  {
    db.attendance := NotOfMeeting(db.attendance, AttendanceMeeting, meetingId);
    ghost var kept := db.attendance;
    var processed: nat, errors: seq<string> := 0, [];
    for i := 0 to |vs|
      invariant db.attendance == kept + Accepted(vs[..i])
      invariant db.users == old(db.users) && db.meetings == old(db.meetings)
      invariant db.nextMeetingId == old(db.nextMeetingId) && db.registered == old(db.registered)
      invariant db.pretest == old(db.pretest) && db.posttest == old(db.posttest) && db.files == old(db.files)
      invariant processed + |errors| == i && errors == RowErrors(vs[..i])
    {
      BatchStep(vs, i);
      match vs[i]
      case Reject(reason) =>
        errors := errors + [ErrorLine(i, reason)];
      case Accept(record) =>
        db.attendance := db.attendance + [record];
        processed := processed + 1;
    }
    assert vs[..|vs|] == vs;
    EveryRowAccounted(vs);
    b := Batch(processed, errors);
  }

  /** The `pretest` branch. */
  method ReplacePretest(db: Database, meetingId: string, vs: seq<Verdict<TestResult>>) returns (b: Batch)
    modifies db
    ensures db.State() == old(db.State()).(pretest :=
      NotOfMeeting(old(db.pretest), ResultMeeting, meetingId) + Accepted(vs))
    ensures b == BatchOfVerdicts(vs)
  {
    db.pretest := NotOfMeeting(db.pretest, ResultMeeting, meetingId);
    ghost var kept := db.pretest;
    var processed: nat, errors: seq<string> := 0, [];
    for i := 0 to |vs|
      invariant db.pretest == kept + Accepted(vs[..i])
      invariant db.users == old(db.users) && db.meetings == old(db.meetings)
      invariant db.nextMeetingId == old(db.nextMeetingId) && db.registered == old(db.registered)
      invariant db.attendance == old(db.attendance) && db.posttest == old(db.posttest) && db.files == old(db.files)
      invariant processed + |errors| == i && errors == RowErrors(vs[..i])
    {
      BatchStep(vs, i);
      match vs[i]
      case Reject(reason) =>
        errors := errors + [ErrorLine(i, reason)];
      case Accept(record) =>
        db.pretest := db.pretest + [record];
        processed := processed + 1;
    }
    assert vs[..|vs|] == vs;
    EveryRowAccounted(vs);
    b := Batch(processed, errors);
  }

  /** The `posttest` branch. */
  method ReplacePosttest(db: Database, meetingId: string, vs: seq<Verdict<TestResult>>) returns (b: Batch)
    modifies db
    ensures db.State() == old(db.State()).(posttest :=
      NotOfMeeting(old(db.posttest), ResultMeeting, meetingId) + Accepted(vs))
    ensures b == BatchOfVerdicts(vs)
  {
    db.posttest := NotOfMeeting(db.posttest, ResultMeeting, meetingId);
    ghost var kept := db.posttest;
    var processed: nat, errors: seq<string> := 0, [];
    for i := 0 to |vs|
      invariant db.posttest == kept + Accepted(vs[..i])
      invariant db.users == old(db.users) && db.meetings == old(db.meetings)
      invariant db.nextMeetingId == old(db.nextMeetingId) && db.registered == old(db.registered)
      invariant db.attendance == old(db.attendance) && db.pretest == old(db.pretest) && db.files == old(db.files)
      invariant processed + |errors| == i && errors == RowErrors(vs[..i])
    {
      BatchStep(vs, i);
      match vs[i]
      case Reject(reason) =>
        errors := errors + [ErrorLine(i, reason)];
      case Accept(record) =>
        db.posttest := db.posttest + [record];
        processed := processed + 1;
    }
    assert vs[..|vs|] == vs;
    EveryRowAccounted(vs);
    b := Batch(processed, errors);
  }

  /** The upload handler after authentication, `userId` being the caller's `user_id`
      and `now` the time of the request: validate, replace the kind's rows, point the
      manifest at the backup, reply. A refused request changes nothing. */
  method Upload(db: Database, meetingId: string, fileType: string, data: seq<Row>, fileName: string,
                userId: string, now: nat)
    returns (r: Result<Response<UploadSummary>>)
    modifies db
    ensures r == UploadOutcome(meetingId, fileType, data, fileName, userId, now)
    ensures r.Err? ==> db.State() == old(db.State())
    ensures r.Ok? ==>
      db.State() == UploadEffect(old(db.State()), meetingId, ParseKind(fileType).value, userId, now, data)
  {
    if Empty(meetingId) || Empty(fileType) || |data| == 0 {
      return Err(400, InvalidParameters);
    }
    var parsed := ParseKind(fileType);
    if parsed.None? {
      return Err(400, InvalidFileType);
    }
    var kind := parsed.value;
    var saved := BackupName(fileType, meetingId, userId, now);
    var b: Batch;
    match kind {
      case Registered =>
        b := ReplaceRegistered(db, meetingId, RegisteredVerdicts(meetingId, data));
      case Attendance =>
        b := ReplaceAttendance(db, meetingId, AttendanceVerdicts(meetingId, userId, now, data));
      case Pretest =>
        b := ReplacePretest(db, meetingId, TestVerdicts(meetingId, userId, now, data));
      case Posttest =>
        b := ReplacePosttest(db, meetingId, TestVerdicts(meetingId, userId, now, data));
    }
    db.files := Upsert(db.files, meetingId, kind, saved, now);
    var message := KindTitle(kind) + " data processed successfully";
    var warning: Option<string> := None;
    if b.errors != [] {
      message := message + " with some errors";
      warning := Some(WarningText);
    }
    r := Ok(Response(200, UploadSummary(
      message, b.processed, |data|, fileName, saved, UploadsDir + saved, b.errors, warning)));
  }
}
