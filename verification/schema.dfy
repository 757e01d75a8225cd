/** The relational schema the handlers share: users, meetings, the four per-meeting
    detail tables (registrants, attendance, pre-test and post-test results) and the
    `files` manifest, held in memory by the class `Database`. */
module Schema {
  import opened Php
  import opened Calendar

  /** The four upload kinds, spelled in requests as below. */
  datatype Kind = Registered | Attendance | Pretest | Posttest

  function KindName(k: Kind): string {
    match k
    case Registered => "registered"
    case Attendance => "attendance"
    case Pretest => "pretest"
    case Posttest => "posttest"
  }

  /** `in_array($type, ['pretest', 'attendance', 'posttest', 'registered'])`, returning
      the kind that was named. */
  function ParseKind(s: string): (r: Option<Kind>)
    ensures r.Some? ==> KindName(r.value) == s
    ensures r.None? <==> s !in {"registered", "attendance", "pretest", "posttest"}
  {
    if s == "registered" then Some(Registered)
    else if s == "attendance" then Some(Attendance)
    else if s == "pretest" then Some(Pretest)
    else if s == "posttest" then Some(Posttest)
    else None
  }

  lemma ParseKindName(k: Kind)
    ensures ParseKind(KindName(k)) == Some(k)
  {
  }

  /** A row of `users` (the password column plays no part here). */
  datatype User = User(id: string, name: string, email: string, role: string)

  /** A row of `meetings`; `id` is the auto-increment key, `createdBy` a user id. */
  datatype Meeting = Meeting(
    id: nat, name: string, date: Date, time: Time, topic: string, hosters: string,
    createdBy: string, createdAt: int)

  /** A row of `registered`. */
  datatype Registrant = Registrant(
    mId: string, name: string, designation: string, block: string, phone: string)

  /** A row of `meeting_attendance`. */
  datatype AttendanceRecord = AttendanceRecord(
    meetingId: string, participantName: string, loginTime: string, attendedTime: string,
    uploadedBy: string, recordedAt: int)

  /** A row of `pretest_results` or `posttest_results` (the two share one shape). */
  datatype TestResult = TestResult(
    meetingId: string, name: string, department: string, score: int, totalMarks: int,
    uploadedBy: string, recordedAt: int)

  /** A row of `files`: per meeting, the backup file that currently stands for each
      upload kind (NULL until that kind is first uploaded). */
  datatype Manifest = Manifest(
    preUrl: Option<string>, attendUrl: Option<string>, postUrl: Option<string>,
    registeredUrl: Option<string>, createdAt: int)
  {
    /** The column that records uploads of kind `k`. */
    function Url(k: Kind): Option<string> {
      match k
      case Registered => registeredUrl
      case Attendance => attendUrl
      case Pretest => preUrl
      case Posttest => postUrl
    }
  }

  /** A snapshot of every table. */
  datatype Tables = Tables(
    users: seq<User>,
    meetings: seq<Meeting>,
    nextMeetingId: nat,
    registered: seq<Registrant>,
    attendance: seq<AttendanceRecord>,
    pretest: seq<TestResult>,
    posttest: seq<TestResult>,
    files: map<string, Manifest>)

  /** The database the handlers share, its tables updated in place. */
  class Database {
    var users: seq<User>
    var meetings: seq<Meeting>
    var nextMeetingId: nat
    var registered: seq<Registrant>
    var attendance: seq<AttendanceRecord>
    var pretest: seq<TestResult>
    var posttest: seq<TestResult>
    var files: map<string, Manifest>

    function State(): Tables
      reads this
    {
      Tables(users, meetings, nextMeetingId, registered, attendance, pretest, posttest, files)
    }
  }

  // ---------------------------------------------------------------- WHERE meeting_id = ?

  function RegistrantMeeting(r: Registrant): string { r.mId }
  function AttendanceMeeting(a: AttendanceRecord): string { a.meetingId }
  function ResultMeeting(t: TestResult): string { t.meetingId }

  /** `SELECT ... WHERE <meeting column> = id`, in table order. */
  function OfMeeting<T(!new)>(s: seq<T>, mid: T -> string, id: string): (r: seq<T>)
    ensures |r| <= |s|
    ensures forall x :: x in r <==> x in s && mid(x) == id
  {
    if s == [] then []
    else (if mid(s[0]) == id then [s[0]] else []) + OfMeeting(s[1..], mid, id)
  }

  /** What `DELETE ... WHERE <meeting column> = id` leaves, in table order. */
  function NotOfMeeting<T(!new)>(s: seq<T>, mid: T -> string, id: string): (r: seq<T>)
    ensures |r| <= |s|
    ensures forall x :: x in r <==> x in s && mid(x) != id
  {
    if s == [] then []
    else (if mid(s[0]) != id then [s[0]] else []) + NotOfMeeting(s[1..], mid, id)
  }

  lemma {:induction false} OfMeetingAppend<T(!new)>(a: seq<T>, b: seq<T>, mid: T -> string, id: string)
    ensures OfMeeting(a + b, mid, id) == OfMeeting(a, mid, id) + OfMeeting(b, mid, id)
  {
    if a == [] {
      assert a + b == b;
    } else {
      var head := if mid(a[0]) == id then [a[0]] else [];
      assert (a + b)[0] == a[0] && (a + b)[1..] == a[1..] + b;
      OfMeetingAppend(a[1..], b, mid, id);
      calc {
        OfMeeting(a + b, mid, id);
        head + OfMeeting(a[1..] + b, mid, id);
        head + (OfMeeting(a[1..], mid, id) + OfMeeting(b, mid, id));
        (head + OfMeeting(a[1..], mid, id)) + OfMeeting(b, mid, id);
      }
    }
  }

  lemma {:induction false} NotOfMeetingAppend<T(!new)>(a: seq<T>, b: seq<T>, mid: T -> string, id: string)
    ensures NotOfMeeting(a + b, mid, id) == NotOfMeeting(a, mid, id) + NotOfMeeting(b, mid, id)
  {
    if a == [] {
      assert a + b == b;
    } else {
      var head := if mid(a[0]) != id then [a[0]] else [];
      assert (a + b)[0] == a[0] && (a + b)[1..] == a[1..] + b;
      NotOfMeetingAppend(a[1..], b, mid, id);
      calc {
        NotOfMeeting(a + b, mid, id);
        head + NotOfMeeting(a[1..] + b, mid, id);
        head + (NotOfMeeting(a[1..], mid, id) + NotOfMeeting(b, mid, id));
        (head + NotOfMeeting(a[1..], mid, id)) + NotOfMeeting(b, mid, id);
      }
    }
  }

  lemma {:induction false} OfMeetingAll<T(!new)>(s: seq<T>, mid: T -> string, id: string)
    requires forall x :: x in s ==> mid(x) == id
    ensures OfMeeting(s, mid, id) == s
    ensures NotOfMeeting(s, mid, id) == []
  {
    if s != [] {
      OfMeetingAll(s[1..], mid, id);
    }
  }

  /** Deleting a meeting's rows and then inserting `added` (all of that meeting) leaves
      exactly `added` for the meeting and every other meeting's rows as they were. */
  lemma ReplaceMeetingRows<T(!new)>(s: seq<T>, added: seq<T>, mid: T -> string, id: string)
    requires forall x :: x in added ==> mid(x) == id
    ensures OfMeeting(NotOfMeeting(s, mid, id) + added, mid, id) == added
    ensures NotOfMeeting(NotOfMeeting(s, mid, id) + added, mid, id) == NotOfMeeting(s, mid, id)
  {
    var kept := NotOfMeeting(s, mid, id);
    OfMeetingAppend(kept, added, mid, id);
    NotOfMeetingAppend(kept, added, mid, id);
    OfMeetingAll(added, mid, id);
    NoneOfMeeting(kept, mid, id);
  }

  lemma {:induction false} NoneOfMeeting<T(!new)>(s: seq<T>, mid: T -> string, id: string)
    requires forall x :: x in s ==> mid(x) != id
    ensures OfMeeting(s, mid, id) == []
    ensures NotOfMeeting(s, mid, id) == s
  {
    if s != [] {
      NoneOfMeeting(s[1..], mid, id);
    }
  }

  /** `SELECT COUNT(*) FROM <table of kind k> WHERE <meeting column> = id`. */
  function RowCount(t: Tables, k: Kind, id: string): nat {
    match k
    case Registered => |OfMeeting(t.registered, RegistrantMeeting, id)|
    case Attendance => |OfMeeting(t.attendance, AttendanceMeeting, id)|
    case Pretest => |OfMeeting(t.pretest, ResultMeeting, id)|
    case Posttest => |OfMeeting(t.posttest, ResultMeeting, id)|
  }
}
