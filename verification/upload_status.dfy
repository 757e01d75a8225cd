/** The upload-status endpoint: for one meeting, how many rows each kind holds, a
    status label per kind, and the backup file that the manifest records for each
    kind whose column is filled in. */
module UploadStatus {
  import opened Php
  import opened Schema
  import opened Helpers
  import UploadFile

  const MeetingIdRequired := "Meeting ID is required"

  /** The four status labels, in the response's order. */
  datatype StatusLabels = StatusLabels(
    registeredParticipants: string, preTest: string, attendance: string, postTest: string)

  /** One `file_info` entry. */
  datatype FileInfo = FileInfo(filename: string, uploadedAt: int, recordCount: nat)

  /** The `summary` counts. */
  datatype Counts = Counts(registeredCount: nat, attendanceCount: nat, pretestCount: nat, posttestCount: nat)

  datatype StatusReport = StatusReport(
    meetingId: string, uploadStatus: StatusLabels, fileInfo: map<string, FileInfo>, summary: Counts)

  /** A kind with rows is "uploaded"; an empty registrant or attendance table is
      "pending", an empty test table "not-required". */
  function Label(k: Kind, count: nat): string {
    if count > 0 then "uploaded"
    else if k == Registered || k == Attendance then "pending"
    else "not-required"
  }

  /** A manifest column counts when it is non-NULL and its text is truthy. */
  predicate Truthy(url: Option<string>) {
    url.Some? && !Empty(url.value)
  }

  /** The `file_info` entries for the meeting's manifest row, each with the live
      count of its kind; none when the meeting has no manifest row. */
  function FileInfos(t: Tables, meetingId: string): map<string, FileInfo> {
    if meetingId !in t.files then map[]
    else
      var m := t.files[meetingId];
      var withRegistered := if Truthy(m.Url(Registered)) then map["registered" := Entry(t, m, Registered, meetingId)] else map[];
      var withPretest := if Truthy(m.Url(Pretest)) then withRegistered["pretest" := Entry(t, m, Pretest, meetingId)] else withRegistered;
      var withAttendance := if Truthy(m.Url(Attendance)) then withPretest["attendance" := Entry(t, m, Attendance, meetingId)] else withPretest;
      if Truthy(m.Url(Posttest)) then withAttendance["posttest" := Entry(t, m, Posttest, meetingId)] else withAttendance
  }

  function Entry(t: Tables, m: Manifest, k: Kind, meetingId: string): FileInfo
    requires m.Url(k).Some?
  {
    FileInfo(m.Url(k).value, m.createdAt, RowCount(t, k, meetingId))
  }

  /** The status handler after authentication: 400 for an empty meeting id, else 200
      with the labels, the file information and the counts. */
  function Status(meetingId: string, t: Tables): (r: Result<Response<StatusReport>>)
    ensures r.Err? <==> Empty(meetingId)
    ensures r.Err? ==> r == Err(400, MeetingIdRequired)
    ensures r.Ok? ==> r.value.code == 200 && r.value.body.meetingId == meetingId
  {
    if Empty(meetingId) then Err(400, MeetingIdRequired)
    else
      var registered := RowCount(t, Registered, meetingId);
      var attendance := RowCount(t, Attendance, meetingId);
      var pretest := RowCount(t, Pretest, meetingId);
      var posttest := RowCount(t, Posttest, meetingId);
      Ok(Response(200, StatusReport(
        meetingId,
        StatusLabels(Label(Registered, registered), Label(Pretest, pretest),
                     Label(Attendance, attendance), Label(Posttest, posttest)),
        FileInfos(t, meetingId),
        Counts(registered, attendance, pretest, posttest))))
  }

  /** A kind is reported "uploaded" exactly when the meeting has rows of that kind;
      otherwise the registrant and attendance kinds are "pending" and the tests
      "not-required". */
  lemma LabelsFollowCounts(k: Kind, count: nat)
    ensures Label(k, count) == "uploaded" <==> count > 0
    ensures count == 0 ==> Label(k, count) == (if k == Registered || k == Attendance then "pending" else "not-required")
  {
  }

  /** A `file_info` entry for a kind exists exactly when the meeting's manifest row
      exists and that kind's column is truthy; it names that file and carries the
      live row count of the kind and the row's `created_at`. */
  lemma FileInfoExact(t: Tables, meetingId: string, k: Kind)
    ensures KindName(k) in FileInfos(t, meetingId) <==>
      meetingId in t.files && Truthy(t.files[meetingId].Url(k))
    ensures KindName(k) in FileInfos(t, meetingId) ==>
      FileInfos(t, meetingId)[KindName(k)]
        == FileInfo(t.files[meetingId].Url(k).value, t.files[meetingId].createdAt, RowCount(t, k, meetingId))
  {
  }

  /** `file_info` has no other keys than the four kinds' names. */
  lemma FileInfoKeys(t: Tables, meetingId: string)
    ensures forall key :: key in FileInfos(t, meetingId) ==>
      key == "registered" || key == "pretest" || key == "attendance" || key == "posttest"
  {
  }

  /** The summary counts and the labels report the same tables: each label follows
      its kind's count ("pending" or "not-required" when it is zero), and `file_info`
      is the manifest's entries for the meeting. */
  lemma SummaryMatchesLabels(meetingId: string, t: Tables)
    requires !Empty(meetingId)
    ensures var b := Status(meetingId, t).value.body;
      && b.summary == Counts(RowCount(t, Registered, meetingId), RowCount(t, Attendance, meetingId),
                             RowCount(t, Pretest, meetingId), RowCount(t, Posttest, meetingId))
      && b.uploadStatus == StatusLabels(Label(Registered, b.summary.registeredCount), Label(Pretest, b.summary.pretestCount),
                                        Label(Attendance, b.summary.attendanceCount), Label(Posttest, b.summary.posttestCount))
      && b.fileInfo == FileInfos(t, meetingId)
      && (b.uploadStatus.registeredParticipants == "uploaded" <==> b.summary.registeredCount > 0)
      && (b.uploadStatus.attendance == "uploaded" <==> b.summary.attendanceCount > 0)
      && (b.uploadStatus.preTest == "uploaded" <==> b.summary.pretestCount > 0)
      && (b.uploadStatus.postTest == "uploaded" <==> b.summary.posttestCount > 0)
  {
  }

  lemma BackupNameTruthy(fileType: string, meetingId: string, userId: string, now: nat)
    ensures !Empty(UploadFile.BackupName(fileType, meetingId, userId, now))
  {
    var name := UploadFile.BackupName(fileType, meetingId, userId, now);
    assert |name| >= 5;
  }

  /** After an upload the status of that kind names the new backup file, counts
      exactly the rows the upload inserted, and reads "uploaded" exactly when at
      least one row was inserted. */
  lemma StatusAfterUpload(t: Tables, meetingId: string, k: Kind, userId: string, now: nat, data: seq<Row>)
    ensures var t' := UploadFile.UploadEffect(t, meetingId, k, userId, now, data);
      var processed := UploadFile.BatchOf(k, meetingId, userId, now, data).processed;
      && KindName(k) in FileInfos(t', meetingId)
      && FileInfos(t', meetingId)[KindName(k)]
           == FileInfo(UploadFile.BackupName(KindName(k), meetingId, userId, now), now, processed)
      && (Label(k, RowCount(t', k, meetingId)) == "uploaded" <==> processed > 0)
  {
    var t' := UploadFile.UploadEffect(t, meetingId, k, userId, now, data);
    UploadFile.UploadReplaces(t, meetingId, k, userId, now, data);
    BackupNameTruthy(KindName(k), meetingId, userId, now);
    FileInfoExact(t', meetingId, k);
  }
}
