/** The create-meeting endpoint: the request's five fields are checked in a fixed
    order, a second meeting in an occupied date-and-time slot is refused, and
    otherwise one row is added to `meetings` and echoed back. */
module CreateMeeting {
  import opened Php
  import opened Calendar
  import opened Schema
  import opened Helpers

  const RequiredFields: seq<string> := ["name", "date", "time", "topic", "hosters"]

  const NameTooShort := "Meeting name must be at least 3 characters long"
  const TopicTooShort := "Meeting topic must be at least 10 characters long"
  const BadDate := "Invalid date format. Use YYYY-MM-DD"
  const PastDate := "Meeting date cannot be in the past"
  const BadTime := "Invalid time format. Use HH:MM"
  const SlotTaken := "A meeting is already scheduled at this date and time"
  const Created := "Meeting created successfully"

  /** The request's fields once they have passed every check, trimmed. */
  datatype MeetingInput = MeetingInput(
    name: string, date: Date, time: Time, topic: string, hosters: string)

  /** The created meeting as the join with `users` reads it back; `time` comes back
      from the TIME column with seconds. */
  datatype CreatedMeeting = CreatedMeeting(
    id: nat, name: string, date: string, time: string, topic: string, hosters: string,
    createdBy: string, createdByName: string, createdAt: int)

  /** The 201 body: `meeting` is `None` when the creator has no `users` row, in which
      case the join finds nothing and every echoed field is null. */
  datatype CreatedBody = CreatedBody(meeting: Option<CreatedMeeting>, status: string, message: string)

  /** The trimmed text of a field (validation has already made sure it is set). */
  function Field(input: Row, f: string): string {
    if IsSet(input, f) then Trim(input[f].text) else ""
  }

  /** The checks after `validateRequired`, in the handler's order: name length, topic
      length, date spelling, date not before today, time spelling. */
  function CheckFields(input: Row, today: Date): (r: Result<MeetingInput>)
    ensures r.Err? ==> r.code == 400
    ensures r.Ok? ==>
      (r.value.name == Field(input, "name") && r.value.topic == Field(input, "topic")
       && r.value.hosters == Field(input, "hosters"))
  {
    var name, date, time, topic := Field(input, "name"), Field(input, "date"), Field(input, "time"), Field(input, "topic");
    if |name| < 3 then Err(400, NameTooShort)
    else if |topic| < 10 then Err(400, TopicTooShort)
    else match ParseDate(date)
      case None => Err(400, BadDate)
      case Some(d) =>
        if Before(d, today) then Err(400, PastDate)
        else match ParseTime(time)
          case None => Err(400, BadTime)
          case Some(tm) => Ok(MeetingInput(name, d, tm, topic, Field(input, "hosters")))
  }

  /** Every 400 of the handler: the missing fields first, then the field checks. */
  function Validate(input: Row, today: Date): Result<MeetingInput> {
    var missing := MissingFields(input, RequiredFields);
    if missing != [] then Err(400, MissingMessage(missing)) else CheckFields(input, today)
  }

  /** `SELECT id FROM meetings WHERE date = ? AND time = ?` finds a row. */
  predicate Occupied(meetings: seq<Meeting>, date: Date, time: Time) {
    exists m :: m in meetings && m.date == date && m.time == time
  }

  /** The name of the first user with this id, as the inner join finds it. */
  function UserName(users: seq<User>, id: string): (r: Option<string>)
    ensures r.None? <==> forall u :: u in users ==> u.id != id
    ensures r.Some? ==> exists u :: u in users && u.id == id && u.name == r.value
  {
    if users == [] then None
    else if users[0].id == id then Some(users[0].name)
    else UserName(users[1..], id)
  }

  /** The row the insert adds: the next auto-increment id and the caller as creator. */
  function NewMeeting(t: Tables, m: MeetingInput, userId: string, now: int): Meeting {
    Meeting(t.nextMeetingId, m.name, m.date, m.time, m.topic, m.hosters, userId, now)
  }

  /** The 201 body for the inserted row `row`. */
  function Echo(users: seq<User>, row: Meeting): CreatedBody
    requires ValidDate(row.date) && ValidTime(row.time)
  {
    var creator := UserName(users, row.createdBy);
    CreatedBody(
      if creator.None? then None
      else Some(CreatedMeeting(row.id, row.name, FormatDate(row.date), FormatTime(row.time) + ":00",
                               row.topic, row.hosters, row.createdBy, creator.value, row.createdAt)),
      "upcoming", Created)
  }

  /** The answer to a validated request: 409 when the slot is taken, else 201. */
  function Admit(t: Tables, m: MeetingInput, userId: string, now: int): (r: Result<Response<CreatedBody>>)
    requires ValidDate(m.date) && ValidTime(m.time)
    ensures r.Err? <==> Occupied(t.meetings, m.date, m.time)
  {
    if Occupied(t.meetings, m.date, m.time) then Err(409, SlotTaken)
    else Ok(Response(201, Echo(t.users, NewMeeting(t, m, userId, now))))
  }

  /** What the handler answers, on the tables as they were before the request. */
  function CreateOutcome(t: Tables, input: Row, userId: string, today: Date, now: int): (r: Result<Response<CreatedBody>>)
    ensures r.Err? ==> r.code == 400 || r == Err(409, SlotTaken)
    ensures r.Ok? ==> r.value.code == 201 && r.value.body.status == "upcoming"
  {
    match Validate(input, today)
    case Err(code, message) => Err(code, message)
    case Ok(m) =>
      assert ValidDate(m.date) && ValidTime(m.time) by { CheckedFieldsValid(input, today); }
      Admit(t, m, userId, now)
  }

  /** The tables after a successful request: one meeting appended, the counter advanced. */
  function CreateEffect(t: Tables, m: MeetingInput, userId: string, now: int): Tables {
    t.(meetings := t.meetings + [NewMeeting(t, m, userId, now)], nextMeetingId := t.nextMeetingId + 1)
  }

  /** The slot check and the insert for a validated request. */
  method Insert(db: Database, m: MeetingInput, userId: string, now: int) returns (r: Result<Response<CreatedBody>>)
    requires ValidDate(m.date) && ValidTime(m.time)
    modifies db
    ensures r == Admit(old(db.State()), m, userId, now)
    ensures r.Err? ==> db.State() == old(db.State())
    ensures r.Ok? ==> db.State() == CreateEffect(old(db.State()), m, userId, now)
  {
    if Occupied(db.meetings, m.date, m.time) {
      return Err(409, SlotTaken);
    }
    var row := Meeting(db.nextMeetingId, m.name, m.date, m.time, m.topic, m.hosters, userId, now);
    db.meetings := db.meetings + [row];
    db.nextMeetingId := db.nextMeetingId + 1;
    r := Ok(Response(201, Echo(db.users, row)));
  }

  /** The handler after authentication: `input` is the decoded JSON body (no fields
      when it did not decode), `userId` the token's `user_id`, `today` the current
      date and `now` the insert's timestamp. */
  method Create(db: Database, input: Row, userId: string, today: Date, now: int) returns (r: Result<Response<CreatedBody>>)
    modifies db
    ensures r == CreateOutcome(old(db.State()), input, userId, today, now)
    ensures r.Err? ==> db.State() == old(db.State())
    ensures r.Ok? ==> db.State() == CreateEffect(old(db.State()), Validate(input, today).value, userId, now)
  {
    var present := ValidateRequired(input, RequiredFields);
    NoneMissing(input, RequiredFields);
    if present.Err? {
      return Err(present.code, present.message);
    }
    var checked := CheckFields(input, today);
    if checked.Err? {
      return Err(checked.code, checked.message);
    }
    CheckedFieldsValid(input, today);
    r := Insert(db, checked.value, userId, now);
  }

  // ---------------------------------------------------------------- properties

  /** A request passes validation exactly when every required field is present and
      not blank, the trimmed name has at least 3 characters and the topic at least
      10, the date is a real `YYYY-MM-DD` date no earlier than today and the time a
      real `HH:MM` time; the accepted fields are those values. */
  lemma ValidateExact(input: Row, today: Date)
    ensures Validate(input, today).Ok? <==>
      (&& (forall f :: f in RequiredFields ==> !Missing(input, f))
       && |Field(input, "name")| >= 3 && |Field(input, "topic")| >= 10
       && ParseDate(Field(input, "date")).Some? && !Before(ParseDate(Field(input, "date")).value, today)
       && ParseTime(Field(input, "time")).Some?)
    ensures Validate(input, today).Ok? ==>
      Validate(input, today).value == MeetingInput(
        Field(input, "name"), ParseDate(Field(input, "date")).value, ParseTime(Field(input, "time")).value,
        Field(input, "topic"), Field(input, "hosters"))
  {
    NoneMissing(input, RequiredFields);
  }

  lemma CheckedFieldsValid(input: Row, today: Date)
    ensures CheckFields(input, today).Ok? ==>
      ValidDate(CheckFields(input, today).value.date) && ValidTime(CheckFields(input, today).value.time)
      && FormatDate(CheckFields(input, today).value.date) == Field(input, "date")
      && FormatTime(CheckFields(input, today).value.time) == Field(input, "time")
  {
  }

  /** The checks are reported in order: a short name is reported whatever else is
      wrong, and a short topic whatever is wrong with the date or time. */
  lemma FirstFailureReported(input: Row, today: Date)
    requires forall f :: f in RequiredFields ==> !Missing(input, f)
    ensures |Field(input, "name")| < 3 ==> Validate(input, today) == Err(400, NameTooShort)
    ensures |Field(input, "name")| >= 3 && |Field(input, "topic")| < 10 ==>
      Validate(input, today) == Err(400, TopicTooShort)
  {
    NoneMissing(input, RequiredFields);
  }

  /** A meeting may be scheduled for today itself. */
  lemma TodayAccepted(input: Row, today: Date)
    requires forall f :: f in RequiredFields ==> !Missing(input, f)
    requires |Field(input, "name")| >= 3 && |Field(input, "topic")| >= 10
    requires ValidDate(today) && Field(input, "date") == FormatDate(today)
    requires ParseTime(Field(input, "time")).Some?
    ensures Validate(input, today).Ok? && Validate(input, today).value.date == today
  {
    FormatParseDate(today);
    ValidateExact(input, today);
  }

  /** No two meetings share a date and time. */
  predicate SlotsDistinct(meetings: seq<Meeting>) {
    forall i, j :: 0 <= i < j < |meetings| ==>
      !(meetings[i].date == meetings[j].date && meetings[i].time == meetings[j].time)
  }

  /** Every meeting id is below the next auto-increment value. */
  predicate IdsBelowNext(t: Tables) {
    forall m :: m in t.meetings ==> m.id < t.nextMeetingId
  }

  /** A successful creation keeps date-and-time slots distinct and ids fresh: the new
      meeting's id is used by no earlier meeting, and it is owned by the caller. */
  lemma CreatePreservesInvariants(t: Tables, input: Row, userId: string, today: Date, now: int)
    requires SlotsDistinct(t.meetings) && IdsBelowNext(t)
    requires CreateOutcome(t, input, userId, today, now).Ok?
    ensures var t' := CreateEffect(t, Validate(input, today).value, userId, now);
      && SlotsDistinct(t'.meetings) && IdsBelowNext(t')
      && |t'.meetings| == |t.meetings| + 1 && t'.meetings[..|t.meetings|] == t.meetings
      && var added := t'.meetings[|t.meetings|];
         added.createdBy == userId && forall m :: m in t.meetings ==> m.id != added.id
  {
    var m := Validate(input, today).value;
    var t' := CreateEffect(t, m, userId, now);
    var added := NewMeeting(t, m, userId, now);
    assert !Occupied(t.meetings, m.date, m.time);
    forall i, j | 0 <= i < j < |t'.meetings|
      ensures !(t'.meetings[i].date == t'.meetings[j].date && t'.meetings[i].time == t'.meetings[j].time)
    {
      if j == |t.meetings| {
        assert t'.meetings[j] == added && t'.meetings[i] == t.meetings[i];
        assert t.meetings[i] in t.meetings;
      } else {
        assert t'.meetings[i] == t.meetings[i] && t'.meetings[j] == t.meetings[j];
      }
    }
  }

  /** A request for an occupied slot is refused with 409 whatever its other fields,
      once they are valid. */
  lemma OccupiedSlotRefused(t: Tables, input: Row, userId: string, today: Date, now: int, other: Meeting)
    requires Validate(input, today).Ok?
    requires other in t.meetings
    requires other.date == Validate(input, today).value.date && other.time == Validate(input, today).value.time
    ensures CreateOutcome(t, input, userId, today, now) == Err(409, SlotTaken)
  {
  }

  /** The echoed meeting carries the request's trimmed values, the date and time
      in their stored spelling, the new id and the creator's name. */
  lemma EchoFaithful(t: Tables, input: Row, userId: string, today: Date, now: int, creator: User)
    requires CreateOutcome(t, input, userId, today, now).Ok?
    requires creator in t.users && creator.id == userId
    requires forall u :: u in t.users && u.id == userId ==> u == creator
    ensures var b := CreateOutcome(t, input, userId, today, now).value.body;
      && b.meeting.Some?
      && b.meeting.value == CreatedMeeting(
           t.nextMeetingId, Field(input, "name"), Field(input, "date"), Field(input, "time") + ":00",
           Field(input, "topic"), Field(input, "hosters"), userId, creator.name, now)
  {
    ValidateExact(input, today);
    CheckedFieldsValid(input, today);
  }
}
