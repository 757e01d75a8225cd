/** The per-meeting statistics endpoint: for one meeting and one kind it lists that
    kind's rows ordered by name and summarises them (a head count for registrants,
    participants with average/highest/lowest percentage for tests, attendees with an
    attendance rate for attendance). Percentages are integers in tenths. */
module MeetingStatistics {
  import opened Php
  import opened Order
  import opened Arith
  import opened Schema
  import opened Helpers
  import UploadFile

  const MeetingIdRequired := "Meeting ID is required"
  const InvalidType := "Invalid type. Must be registered, pretest, posttest, or attendance"

  // ---------------------------------------------------------------- the rows returned

  /** A registrant as listed: the designation doubles as the department and every
      row has the status "registered". */
  datatype RegisteredRow = RegisteredRow(
    name: string, department: string, designation: string, block: string, phone: string, status: string)

  /** A test result as listed, with its percentage in tenths (`None` is SQL NULL,
      the quotient of a division by a zero total). */
  datatype ResultRow = ResultRow(
    name: string, department: string, score: int, totalMarks: int, percentage: Option<int>, recordedAt: int)

  /** An attendance record as listed. */
  datatype AttendanceRow = AttendanceRow(name: string, loginTime: string, attendedTime: string, recordedAt: int)

  datatype Listing =
    | Registrants(registrants: seq<RegisteredRow>)
    | Results(results: seq<ResultRow>)
    | Attendees(attendees: seq<AttendanceRow>)

  datatype Summary =
    | RegisteredSummary(totalRegistered: nat)
    | TestSummary(totalParticipants: nat, averageScore: int, highestScore: Option<int>, lowestScore: Option<int>)
    | AttendanceSummary(totalAttendees: nat, expectedAttendees: nat, attendanceRate: int)

  datatype Report = Report(kind: Kind, meetingId: string, data: Listing, statistics: Summary)

  // ---------------------------------------------------------------- ORDER BY name ASC

  function RegistrantName(r: Registrant): seq<int> { CodeKey(r.name) }
  function ResultName(r: TestResult): seq<int> { CodeKey(r.name) }
  function AttendeeName(a: AttendanceRecord): seq<int> { CodeKey(a.participantName) }

  // ---------------------------------------------------------------- percentages

  /** `ROUND((score / total_marks) * 100, 1)` in tenths: the quotient reaches `ROUND`
      unrounded, so the percentage is `1000 * score / total` rounded once, halves away
      from zero; a zero total yields NULL. */
  function Percentage(score: int, totalMarks: int): (p: Option<int>)
    ensures p.None? <==> totalMarks == 0
  {
    if totalMarks == 0 then None
    else if totalMarks > 0 then Some(RoundDiv(score * 1000, totalMarks))
    else Some(RoundDiv(-score * 1000, -totalMarks))
  }

  /** A score between zero and the (positive) total is between 0% and 100%. */
  lemma PercentageBounds(score: int, totalMarks: int)
    requires 0 <= score <= totalMarks && totalMarks > 0
    ensures Percentage(score, totalMarks).Some?
    ensures 0 <= Percentage(score, totalMarks).value <= 1000
  {
    assert 0 * totalMarks <= score * 1000 <= 1000 * totalMarks;
    RoundDivBetween(score * 1000, totalMarks, 0, 1000);
  }

  /** Full marks are exactly 100.0%, whatever the total. */
  lemma FullMarks(totalMarks: int)
    requires totalMarks > 0
    ensures Percentage(totalMarks, totalMarks) == Some(1000)
  {
    assert totalMarks * 1000 == 1000 * totalMarks;
    RoundDivExact(1000, totalMarks);
  }

  /** The percentage is within 0.05 points of the exact `100 * score / total`, and an
      exact half of a tenth rounds away from zero. In tenths, with `a` the total's
      magnitude: `|p - 1000 * score / total| <= 0.5`. */
  lemma PercentageClose(score: int, totalMarks: int)
    requires totalMarks != 0
    ensures var p := Percentage(score, totalMarks).value;
      var a := if totalMarks > 0 then totalMarks else -totalMarks;
      && -a <= 2 * (p * totalMarks - 1000 * score) <= a
      && (totalMarks > 0 && score >= 0 ==> -a < 2 * (p * totalMarks - 1000 * score))
      && (totalMarks > 0 && score < 0 ==> 2 * (p * totalMarks - 1000 * score) < a)
      && (totalMarks < 0 && score <= 0 ==> 2 * (p * totalMarks - 1000 * score) < a)
      && (totalMarks < 0 && score > 0 ==> -a < 2 * (p * totalMarks - 1000 * score))
  {
    if totalMarks < 0 {
      var p := RoundDiv(-score * 1000, -totalMarks);
      assert Percentage(score, totalMarks).value == p;
      MulNegate(p, totalMarks);
    }
  }

  /** 1 mark out of 22 is 4.5454…%, which rounds to 4.5%. */
  lemma OneOfTwentyTwo()
    ensures Percentage(1, 22) == Some(45)
  {
    var p := RoundDiv(1000, 22);
    assert 989 <= p * 22 <= 1011;
  }

  /** A NULL percentage as `array_sum` reads it: 0. */
  function PercentValue(p: Option<int>): int {
    match p
    case Some(v) => v
    case None => 0
  }

  function ResultRowOf(r: TestResult): ResultRow {
    ResultRow(r.name, r.department, r.score, r.totalMarks, Percentage(r.score, r.totalMarks), r.recordedAt)
  }

  /** The `percentage` column of the listed rows. */
  function Percentages(rows: seq<ResultRow>): (ps: seq<Option<int>>)
    ensures |ps| == |rows|
    ensures forall i :: 0 <= i < |rows| ==> ps[i] == rows[i].percentage
  {
    MapSeq((row: ResultRow) => row.percentage, rows)
  }

  /** The column as `array_sum` adds it up. */
  function SumReading(ps: seq<Option<int>>): (vs: seq<int>)
    ensures |vs| == |ps|
    ensures forall i :: 0 <= i < |ps| ==> vs[i] == PercentValue(ps[i])
  {
    MapSeq(PercentValue, ps)
  }

  /** The non-NULL percentages, in order. */
  function Known(ps: seq<Option<int>>): (vs: seq<int>)
    ensures forall v :: v in vs <==> Some(v) in ps
    ensures None !in ps ==> vs == SumReading(ps)
  {
    if ps == [] then []
    else
      assert forall v :: Some(v) in ps <==> Some(v) == ps[0] || Some(v) in ps[1..];
      (if ps[0].Some? then [ps[0].value] else []) + Known(ps[1..])
  }

  /** PHP 8 orders NULL below every numeric string, so `max` over the column is NULL
      only when every percentage is, and `min` is NULL as soon as one is. */
  function HighestOf(ps: seq<Option<int>>): Option<int> {
    var vs := Known(ps);
    if vs == [] then None else Some(Max(vs))
  }

  function LowestOf(ps: seq<Option<int>>): Option<int> {
    if ps == [] || None in ps then None
    else
      assert ps[0].value in Known(ps);
      Some(Min(Known(ps)))
  }

  /** The test statistics over the listed percentages: zeros when nobody took the
      test; otherwise the count, the mean with NULL counted as 0, the highest
      percentage (NULL only when all are), and the lowest (NULL when any is). With no
      NULL the mean lies between the lowest and the highest. */
  function TestSummaryOf(ps: seq<Option<int>>): (s: Summary)
    ensures s.TestSummary? && s.totalParticipants == |ps|
    ensures ps == [] ==> s == TestSummary(0, 0, Some(0), Some(0))
    ensures ps != [] ==>
      && (s.highestScore.None? <==> forall p :: p in ps ==> p.None?)
      && (s.highestScore.Some? ==>
            Some(s.highestScore.value) in ps && forall p :: p in ps && p.Some? ==> p.value <= s.highestScore.value)
      && (s.lowestScore.None? <==> None in ps)
      && (s.lowestScore.Some? ==>
            Some(s.lowestScore.value) in ps && forall p :: p in ps ==> p.Some? && s.lowestScore.value <= p.value)
    ensures ps != [] && None !in ps ==>
      s.highestScore.Some? && s.lowestScore.Some? && s.lowestScore.value <= s.averageScore <= s.highestScore.value
  {
    if |ps| > 0 then
      var vs := SumReading(ps);
      MeanBetween(vs);
      assert forall p :: p in ps && p.Some? ==> p.value in Known(ps);
      TestSummary(|ps|, RoundDiv(Sum(vs), |ps|), HighestOf(ps), LowestOf(ps))
    else TestSummary(0, 0, Some(0), Some(0))
  }

  /** Percentages 90.0 and 70.0 average to 80.0, with 90.0 highest and 70.0 lowest. */
  lemma TestSummaryExample()
    ensures TestSummaryOf([Some(900), Some(700)]) == TestSummary(2, 800, Some(900), Some(700))
  {
    var ps: seq<Option<int>> := [Some(900), Some(700)];
    var vs := [900, 700];
    assert Known(ps) == vs by {
      assert ps[1..] == [Some(700)] && ps[1..][1..] == [];
    }
    assert Sum(vs) == 1600 by {
      assert vs[..1] == [900] && [900][..0] == [];
    }
    assert RoundDiv(1600, 2) == 800 by {
      RoundDivExact(800, 2);
      assert 800 * 2 == 1600;
    }
  }

  /** A NULL percentage (a zero total) is counted as 0 in the mean and is the lowest
      score, while the highest stays the other row's. */
  lemma NullPercentageLowest()
    ensures TestSummaryOf([None, Some(800)]) == TestSummary(2, 400, Some(800), None)
  {
    var ps: seq<Option<int>> := [None, Some(800)];
    var vs := [0, 800];
    assert SumReading(ps) == vs;
    assert Known(ps) == [800];
    assert vs[..1] == [0] && [0][..0] == [];
    assert Sum(vs) == 800;
    RoundDivExact(400, 2);
    assert 400 * 2 == 800;
  }

  // ---------------------------------------------------------------- attendance

  /** Expected attendees are the attendees themselves, or 1 when there are none, so
      the rate is 100.0% for any attendance and 0.0% for none; the 100 for an
      expectation of zero can never be reached. */
  function AttendanceSummaryOf(totalAttendees: nat): (s: Summary)
    ensures s.AttendanceSummary? && s.totalAttendees == totalAttendees
    ensures s.expectedAttendees >= 1 && s.expectedAttendees >= totalAttendees
    ensures s.attendanceRate == if totalAttendees > 0 then 1000 else 0
  {
    var expected: nat := if totalAttendees > 0 then totalAttendees else 1;
    FullAttendance(totalAttendees);
    var rate := if expected > 0 then RoundDiv(totalAttendees * 1000, expected) else 1000;
    AttendanceSummary(totalAttendees, expected, rate)
  }

  lemma FullAttendance(totalAttendees: nat)
    ensures totalAttendees > 0 ==> RoundDiv(totalAttendees * 1000, totalAttendees) == 1000
    ensures RoundDiv(0, 1) == 0
  {
    if totalAttendees > 0 {
      assert totalAttendees * 1000 == 1000 * totalAttendees;
      RoundDivExact(1000, totalAttendees);
    }
    RoundDivExact(0, 1);
  }

  // ---------------------------------------------------------------- the handler

  function RegisteredRowOf(r: Registrant): RegisteredRow {
    RegisteredRow(r.name, r.designation, r.designation, r.block, r.phone, "registered")
  }

  function AttendanceRowOf(a: AttendanceRecord): AttendanceRow {
    AttendanceRow(a.participantName, a.loginTime, a.attendedTime, a.recordedAt)
  }

  function RegisteredListing(rs: seq<Registrant>): (rows: seq<RegisteredRow>)
    ensures |rows| == |rs| && forall i :: 0 <= i < |rs| ==> rows[i] == RegisteredRowOf(rs[i])
  {
    MapSeq(RegisteredRowOf, rs)
  }

  function ResultListing(rs: seq<TestResult>): (rows: seq<ResultRow>)
    ensures |rows| == |rs| && forall i :: 0 <= i < |rs| ==> rows[i] == ResultRowOf(rs[i])
  {
    MapSeq(ResultRowOf, rs)
  }

  function AttendanceListing(rs: seq<AttendanceRecord>): (rows: seq<AttendanceRow>)
    ensures |rows| == |rs| && forall i :: 0 <= i < |rs| ==> rows[i] == AttendanceRowOf(rs[i])
  {
    MapSeq(AttendanceRowOf, rs)
  }

  /** The `registered` report: the meeting's registrants ordered by name, and their count. */
  function RegisteredReport(t: Tables, meetingId: string): Report {
    var rows := RegisteredListing(SortBy(OfMeeting(t.registered, RegistrantMeeting, meetingId), RegistrantName));
    Report(Registered, meetingId, Registrants(rows), RegisteredSummary(|rows|))
  }

  /** The `attendance` report: the meeting's attendance ordered by name, and the rate. */
  function AttendanceReport(t: Tables, meetingId: string): Report {
    var rows := AttendanceListing(SortBy(OfMeeting(t.attendance, AttendanceMeeting, meetingId), AttendeeName));
    Report(Attendance, meetingId, Attendees(rows), AttendanceSummaryOf(|rows|))
  }

  /** The report of one test table: its results for the meeting ordered by name, and
      the percentage statistics. */
  function TestReport(kind: Kind, table: seq<TestResult>, meetingId: string): Report {
    var rows := ResultListing(SortBy(OfMeeting(table, ResultMeeting, meetingId), ResultName));
    Report(kind, meetingId, Results(rows), TestSummaryOf(Percentages(rows)))
  }

  /** The statistics handler after authentication: 400 when the meeting id is empty
      (checked first) or the type is not one of the four kinds, otherwise 200 with the
      report of that kind for that meeting. */
  function MeetingStatistics(meetingId: string, statType: string, t: Tables): (r: Result<Response<Report>>)
    ensures Empty(meetingId) ==> r == Err(400, MeetingIdRequired)
    ensures !Empty(meetingId) && ParseKind(statType).None? ==> r == Err(400, InvalidType)
    ensures r.Ok? ==>
      && r.value.code == 200
      && ParseKind(statType) == Some(r.value.body.kind)
      && r.value.body.meetingId == meetingId
  {
    if Empty(meetingId) then Err(400, MeetingIdRequired)
    else
      match ParseKind(statType)
      case None => Err(400, InvalidType)
      case Some(Registered) => Ok(Response(200, RegisteredReport(t, meetingId)))
      case Some(Pretest) => Ok(Response(200, TestReport(Pretest, t.pretest, meetingId)))
      case Some(Posttest) => Ok(Response(200, TestReport(Posttest, t.posttest, meetingId)))
      case Some(Attendance) => Ok(Response(200, AttendanceReport(t, meetingId)))
  }

  // ---------------------------------------------------------------- what the reports say

  /** Listing registrants keeps their order and puts each one's designation in the
      department column with the status "registered". */
  lemma RegisteredListingFaithful(sorted: seq<Registrant>)
    requires SortedBy(sorted, RegistrantName)
    ensures var rows := RegisteredListing(sorted);
      && (forall i, j :: 0 <= i < j < |rows| ==> LexLeq(CodeKey(rows[i].name), CodeKey(rows[j].name)))
      && (forall i :: 0 <= i < |rows| ==>
            rows[i].name == sorted[i].name && rows[i].department == rows[i].designation == sorted[i].designation
            && rows[i].status == "registered")
  {
    var rows := RegisteredListing(sorted);
    forall i, j | 0 <= i < j < |rows| ensures LexLeq(CodeKey(rows[i].name), CodeKey(rows[j].name)) {
      assert RegistrantName(sorted[i]) == CodeKey(rows[i].name);
      assert RegistrantName(sorted[j]) == CodeKey(rows[j].name);
    }
  }

  /** The registrant listing is, ordered by name, the meeting's registrants each
      listed once, with the designation as department and the status "registered". */
  lemma RegisteredReportFaithful(meetingId: string, t: Tables)
    requires !Empty(meetingId)
    ensures MeetingStatistics(meetingId, "registered", t) == Ok(Response(200, RegisteredReport(t, meetingId)))
    ensures var r := RegisteredReport(t, meetingId);
      && r.data.Registrants?
      && var rows := r.data.registrants;
      && r.statistics == RegisteredSummary(|rows|)
      && |rows| == RowCount(t, Registered, meetingId)
      && (forall i, j :: 0 <= i < j < |rows| ==> LexLeq(CodeKey(rows[i].name), CodeKey(rows[j].name)))
      && (forall i :: 0 <= i < |rows| ==> rows[i].department == rows[i].designation && rows[i].status == "registered")
      && (forall row :: row in rows ==> exists x :: x in t.registered && x.mId == meetingId && row == RegisteredRowOf(x))
      && multiset(rows) == multiset(RegisteredListing(OfMeeting(t.registered, RegistrantMeeting, meetingId)))
  {
    var own := OfMeeting(t.registered, RegistrantMeeting, meetingId);
    var sorted := SortBy(own, RegistrantName);
    SortedLength(own, RegistrantName);
    RegisteredListingFaithful(sorted);
    MapPermutation(RegisteredRowOf, sorted, own);
    var rows := RegisteredListing(sorted);
    forall row | row in rows
      ensures exists x :: x in t.registered && x.mId == meetingId && row == RegisteredRowOf(x)
    {
      var i :| 0 <= i < |rows| && rows[i] == row;
      assert sorted[i] in multiset(own);
      assert sorted[i] in own;
      assert RegistrantMeeting(sorted[i]) == meetingId && rows[i] == RegisteredRowOf(sorted[i]);
    }
  }

  /** Listing results keeps their order and computes each one's percentage. */
  lemma ResultListingFaithful(sorted: seq<TestResult>)
    requires SortedBy(sorted, ResultName)
    ensures var rows := ResultListing(sorted);
      && (forall i, j :: 0 <= i < j < |rows| ==> LexLeq(CodeKey(rows[i].name), CodeKey(rows[j].name)))
      && (forall row :: row in rows ==> row.percentage == Percentage(row.score, row.totalMarks))
  {
    var rows := ResultListing(sorted);
    forall i, j | 0 <= i < j < |rows| ensures LexLeq(CodeKey(rows[i].name), CodeKey(rows[j].name)) {
      assert ResultName(sorted[i]) == CodeKey(rows[i].name);
      assert ResultName(sorted[j]) == CodeKey(rows[j].name);
    }
  }

  /** A test listing is, ordered by name, the meeting's results of that test each
      listed once with its percentage, and its statistics count them. */
  lemma TestReportFaithful(meetingId: string, kind: Kind, t: Tables)
    requires !Empty(meetingId) && (kind == Pretest || kind == Posttest)
    ensures MeetingStatistics(meetingId, KindName(kind), t)
         == Ok(Response(200, TestReport(kind, if kind == Pretest then t.pretest else t.posttest, meetingId)))
    ensures var table := if kind == Pretest then t.pretest else t.posttest;
      var r := TestReport(kind, table, meetingId);
      && r.data.Results?
      && var rows := r.data.results;
      && |rows| == r.statistics.totalParticipants == RowCount(t, kind, meetingId)
      && (forall i, j :: 0 <= i < j < |rows| ==> LexLeq(CodeKey(rows[i].name), CodeKey(rows[j].name)))
      && (forall row :: row in rows ==> row.percentage == Percentage(row.score, row.totalMarks))
      && multiset(rows) == multiset(ResultListing(OfMeeting(table, ResultMeeting, meetingId)))
  {
    var table := if kind == Pretest then t.pretest else t.posttest;
    var own := OfMeeting(table, ResultMeeting, meetingId);
    var sorted := SortBy(own, ResultName);
    SortedLength(own, ResultName);
    ResultListingFaithful(sorted);
    MapPermutation(ResultRowOf, sorted, own);
  }

  /** The statistics of a test listing: all zero without rows; otherwise the lowest
      score is NULL exactly when some listed percentage is, and without NULL the mean
      lies between the lowest and the highest percentage. */
  lemma TestStatisticsFaithful(kind: Kind, table: seq<TestResult>, meetingId: string)
    ensures var r := TestReport(kind, table, meetingId);
      && r.data.Results?
      && var rows := r.data.results;
      && var s := r.statistics;
      && (rows == [] ==> s == TestSummary(0, 0, Some(0), Some(0)))
      && (rows != [] ==> (s.lowestScore.None? <==> exists row :: row in rows && row.percentage.None?))
      && (rows != [] && (forall row :: row in rows ==> row.percentage.Some?) ==>
            s.highestScore.Some? && s.lowestScore.Some? && s.lowestScore.value <= s.averageScore <= s.highestScore.value)
  {
    PercentagesNull(TestReport(kind, table, meetingId).data.results);
  }

  /** The percentage column holds NULL exactly when some listed row has no percentage. */
  lemma PercentagesNull(rows: seq<ResultRow>)
    ensures None in Percentages(rows) <==> exists row :: row in rows && row.percentage.None?
    ensures (forall row :: row in rows ==> row.percentage.Some?) ==> None !in Percentages(rows)
  {
    var ps := Percentages(rows);
    if None in ps {
      var i :| 0 <= i < |ps| && ps[i] == None;
      assert rows[i] in rows;
    }
    if exists row :: row in rows && row.percentage.None? {
      var row :| row in rows && row.percentage.None?;
      var i :| 0 <= i < |rows| && rows[i] == row;
      assert ps[i] == None;
    }
  }

  /** The attendance listing is, ordered by name, the meeting's attendance records
      each listed once; the rate is 100.0% when anyone attended and 0.0% otherwise. */
  lemma AttendanceReportFaithful(meetingId: string, t: Tables)
    requires !Empty(meetingId)
    ensures MeetingStatistics(meetingId, "attendance", t) == Ok(Response(200, AttendanceReport(t, meetingId)))
    ensures var r := AttendanceReport(t, meetingId);
      && r.data.Attendees?
      && var rows := r.data.attendees;
      && var s := r.statistics;
      && |rows| == s.totalAttendees == RowCount(t, Attendance, meetingId)
      && (forall i, j :: 0 <= i < j < |rows| ==> LexLeq(CodeKey(rows[i].name), CodeKey(rows[j].name)))
      && s.attendanceRate == (if rows == [] then 0 else 1000)
      && s.expectedAttendees == (if rows == [] then 1 else |rows|)
      && multiset(rows) == multiset(AttendanceListing(OfMeeting(t.attendance, AttendanceMeeting, meetingId)))
  {
    var own := OfMeeting(t.attendance, AttendanceMeeting, meetingId);
    SortedLength(own, AttendeeName);
    var sorted := SortBy(own, AttendeeName);
    MapPermutation(AttendanceRowOf, sorted, own);
    var rows := AttendanceListing(sorted);
    forall i, j | 0 <= i < j < |rows| ensures LexLeq(CodeKey(rows[i].name), CodeKey(rows[j].name)) {
      assert rows[i].name == sorted[i].participantName && rows[j].name == sorted[j].participantName;
    }
  }

  // ---------------------------------------------------------------- after an upload

  /** A test table whose results for the meeting all have a non-zero total lists a
      percentage for every one of them. */
  lemma NonZeroTotalsHavePercentages(kind: Kind, table: seq<TestResult>, meetingId: string)
    requires forall x :: x in OfMeeting(table, ResultMeeting, meetingId) ==> x.totalMarks != 0
    ensures var r := TestReport(kind, table, meetingId);
      r.data.Results? && forall row :: row in r.data.results ==> row.percentage.Some?
  {
    var own := OfMeeting(table, ResultMeeting, meetingId);
    var sorted := SortBy(own, ResultName);
    var rows := ResultListing(sorted);
    forall row | row in rows
      ensures row.percentage.Some?
    {
      var i :| 0 <= i < |rows| && rows[i] == row;
      assert sorted[i] in multiset(own);
      assert sorted[i] in own;
    }
  }

  /** After a test sheet is uploaded, that test's statistics count exactly the rows
      the upload stored, and every listed result has a percentage, since a stored
      total is never zero; so the lowest and highest scores are never NULL and the
      mean lies between them. */
  lemma UploadedTestReported(t: Tables, meetingId: string, kind: Kind, userId: string, now: nat, data: seq<Row>)
    requires !Empty(meetingId) && (kind == Pretest || kind == Posttest)
    ensures var t' := UploadFile.UploadEffect(t, meetingId, kind, userId, now, data);
      var r := MeetingStatistics(meetingId, KindName(kind), t');
      && r.Ok? && r.value.body.data.Results?
      && r.value.body.statistics.totalParticipants == UploadFile.BatchOf(kind, meetingId, userId, now, data).processed
      && (forall row :: row in r.value.body.data.results ==> row.percentage.Some?)
      && var s := r.value.body.statistics;
         s.totalParticipants > 0 ==>
           s.highestScore.Some? && s.lowestScore.Some? && s.lowestScore.value <= s.averageScore <= s.highestScore.value
  {
    var t' := UploadFile.UploadEffect(t, meetingId, kind, userId, now, data);
    UploadFile.UploadReplaces(t, meetingId, kind, userId, now, data);
    UploadFile.AcceptedTestTotals(meetingId, userId, now, data);
    TestReportFaithful(meetingId, kind, t');
    NonZeroTotalsHavePercentages(kind, if kind == Pretest then t'.pretest else t'.posttest, meetingId);
    TestStatisticsFaithful(kind, if kind == Pretest then t'.pretest else t'.posttest, meetingId);
  }
}
