/** The meetings listing: every meeting joined with the user who created it, newest
    date and time first, each with a status computed from today's date and a few
    fixed display defaults. */
module Meetings {
  import opened Php
  import opened Calendar
  import opened Order
  import opened Schema
  import opened Helpers
  import CreateMeeting

  const Fetched := "Meetings fetched successfully"
  const DefaultLocation := "Training Hall"
  const DefaultDuration := "2 hours"
  const DefaultAttendees := 0
  const DefaultMaxAttendees := 50
  const DefaultCategory := "Medical Training"

  /** The status column: later than today is "upcoming", today "ongoing", earlier
      "completed". */
  function MeetingStatus(d: Date, today: Date): string {
    if Before(today, d) then "upcoming"
    else if d == today then "ongoing"
    else "completed"
  }

  /** A row of `meetings m JOIN users u ON m.created_by = u.id`. */
  datatype Joined = Joined(meeting: Meeting, creator: User)

  /** One listed meeting, with its display defaults. */
  datatype Listed = Listed(
    id: nat, title: string, name: string, date: Date, time: Time, topic: string,
    hosters: string, instructor: string, createdBy: string, createdByName: string,
    createdByRole: string, createdAt: int, status: string, location: string,
    duration: string, attendees: nat, maxAttendees: nat, category: string)

  datatype MeetingsBody = MeetingsBody(meetings: seq<Listed>, total: nat, message: string)

  /** The join rows of one meeting: one per user whose id is its creator. */
  function CreatorsOf(m: Meeting, users: seq<User>): (r: seq<Joined>)
    ensures forall j :: j in r <==> j.meeting == m && j.creator in users && j.creator.id == m.createdBy
  {
    if users == [] then []
    else (if users[0].id == m.createdBy then [Joined(m, users[0])] else []) + CreatorsOf(m, users[1..])
  }

  /** The inner join, in `meetings` order. */
  function Join(meetings: seq<Meeting>, users: seq<User>): (r: seq<Joined>)
    ensures forall j :: j in r <==>
      j.meeting in meetings && j.creator in users && j.creator.id == j.meeting.createdBy
  {
    if meetings == [] then []
    else CreatorsOf(meetings[0], users) + Join(meetings[1..], users)
  }

  /** `ORDER BY m.date DESC, m.time DESC`: each column negated. */
  function NewestFirst(j: Joined): seq<int> {
    var m := j.meeting;
    [-m.date.year, -m.date.month, -m.date.day, -m.time.hour, -m.time.minute]
  }

  function ListedOf(j: Joined, today: Date): Listed {
    var m := j.meeting;
    Listed(m.id, m.name, m.name, m.date, m.time, m.topic, m.hosters, m.hosters, m.createdBy,
           j.creator.name, j.creator.role, m.createdAt, MeetingStatus(m.date, today),
           DefaultLocation, DefaultDuration, DefaultAttendees, DefaultMaxAttendees, DefaultCategory)
  }

  /** The formatting loop over the fetched rows. */
  function Format(js: seq<Joined>, today: Date): (rows: seq<Listed>)
    ensures |rows| == |js|
    ensures forall i :: 0 <= i < |js| ==> rows[i] == ListedOf(js[i], today)
  {
    if js == [] then []
    else Format(js[..|js| - 1], today) + [ListedOf(js[|js| - 1], today)]
  }

  /** The listing handler after authentication; `today` is the database's current date. */
  function ListMeetings(t: Tables, today: Date): (r: Response<MeetingsBody>)
    ensures r.code == 200 && r.body.message == Fetched
  {
    var rows := Format(SortBy(Join(t.meetings, t.users), NewestFirst), today);
    Response(200, MeetingsBody(rows, |rows|, Fetched))
  }

  // ---------------------------------------------------------------- properties

  /** Exactly one of the three statuses applies, and it is decided by calendar order. */
  lemma StatusExact(d: Date, today: Date)
    ensures MeetingStatus(d, today) == "upcoming" <==> Before(today, d)
    ensures MeetingStatus(d, today) == "ongoing" <==> d == today
    ensures MeetingStatus(d, today) == "completed" <==> Before(d, today)
  {
  }

  predicate TimeBefore(a: Time, b: Time) {
    a.hour < b.hour || (a.hour == b.hour && a.minute < b.minute)
  }

  /** Ascending order of the negated key is descending order of date, then time. */
  lemma NewestFirstOrder(a: Joined, b: Joined)
    requires LexLeq(NewestFirst(a), NewestFirst(b))
    ensures !Before(a.meeting.date, b.meeting.date)
    ensures a.meeting.date == b.meeting.date ==> !TimeBefore(a.meeting.time, b.meeting.time)
  {
    var ka, kb := NewestFirst(a), NewestFirst(b);
    if ka[0] == kb[0] {
      assert LexLeq(ka[1..], kb[1..]);
      if ka[1] == kb[1] {
        assert ka[1..][1..] == ka[2..] && kb[1..][1..] == kb[2..];
        assert LexLeq(ka[2..], kb[2..]);
        if ka[2] == kb[2] {
          assert ka[2..][1..] == ka[3..] && kb[2..][1..] == kb[3..];
          assert LexLeq(ka[3..], kb[3..]);
          if ka[3] == kb[3] {
            assert ka[3..][1..] == ka[4..] && kb[3..][1..] == kb[4..];
            assert LexLeq(ka[4..], kb[4..]);
          }
        }
      }
    }
  }

  /** The listing's rows: the join sorted newest first, each formatted. */
  lemma ListingRows(t: Tables, today: Date)
    ensures var b := ListMeetings(t, today).body;
      var sorted := SortBy(Join(t.meetings, t.users), NewestFirst);
      && b.meetings == Format(sorted, today)
      && b.total == |b.meetings| == |Join(t.meetings, t.users)|
  {
    SortedLength(Join(t.meetings, t.users), NewestFirst);
  }

  /** The listing holds every row of the inner join exactly once, formatted, and its
      `total` counts the joined rows. */
  lemma ListingPermutesJoin(t: Tables, today: Date)
    ensures var b := ListMeetings(t, today).body;
      && multiset(b.meetings) == multiset(Format(Join(t.meetings, t.users), today))
      && b.total == |Join(t.meetings, t.users)|
  {
    var joined := Join(t.meetings, t.users);
    var sorted := SortBy(joined, NewestFirst);
    var f := (j: Joined) => ListedOf(j, today);
    SortedLength(joined, NewestFirst);
    assert Format(sorted, today) == MapSeq(f, sorted);
    assert Format(joined, today) == MapSeq(f, joined);
    MapPermutation(f, sorted, joined);
  }

  /** Every (meeting, creator) pair of the inner join is listed. */
  lemma JoinPairsListed(t: Tables, today: Date)
    ensures var rows := ListMeetings(t, today).body.meetings;
      forall m, u :: m in t.meetings && u in t.users && u.id == m.createdBy ==>
        ListedOf(Joined(m, u), today) in rows
  {
    var joined := Join(t.meetings, t.users);
    var sorted := SortBy(joined, NewestFirst);
    var rows := Format(sorted, today);
    ListingRows(t, today);
    forall m, u | m in t.meetings && u in t.users && u.id == m.createdBy
      ensures ListedOf(Joined(m, u), today) in rows
    {
      var j := Joined(m, u);
      assert j in multiset(sorted);
      var k :| 0 <= k < |sorted| && sorted[k] == j;
      assert rows[k] == ListedOf(j, today);
    }
  }

  /** Every listed entry comes from a (meeting, creator) pair of the inner join. */
  lemma ListedOnlyFromJoin(t: Tables, today: Date)
    ensures var rows := ListMeetings(t, today).body.meetings;
      forall i :: 0 <= i < |rows| ==>
        exists m, u ::
          m in t.meetings && u in t.users && u.id == m.createdBy && rows[i] == ListedOf(Joined(m, u), today)
  {
    var joined := Join(t.meetings, t.users);
    var sorted := SortBy(joined, NewestFirst);
    var rows := Format(sorted, today);
    ListingRows(t, today);
    forall i | 0 <= i < |rows|
      ensures exists m, u ::
        m in t.meetings && u in t.users && u.id == m.createdBy && rows[i] == ListedOf(Joined(m, u), today)
    {
      assert sorted[i] in multiset(sorted);
      assert sorted[i] in joined;
      assert rows[i] == ListedOf(Joined(sorted[i].meeting, sorted[i].creator), today);
    }
  }

  /** The listing runs from the latest date to the earliest, and within a date from
      the latest time to the earliest. */
  lemma ListingNewestFirst(t: Tables, today: Date)
    ensures var rows := ListMeetings(t, today).body.meetings;
      forall i, j :: 0 <= i < j < |rows| ==>
        !Before(rows[i].date, rows[j].date)
        && (rows[i].date == rows[j].date ==> !TimeBefore(rows[i].time, rows[j].time))
  {
    var sorted := SortBy(Join(t.meetings, t.users), NewestFirst);
    var rows := Format(sorted, today);
    ListingRows(t, today);
    forall i, j | 0 <= i < j < |rows|
      ensures !Before(rows[i].date, rows[j].date)
        && (rows[i].date == rows[j].date ==> !TimeBefore(rows[i].time, rows[j].time))
    {
      NewestFirstOrder(sorted[i], sorted[j]);
    }
  }

  /** Every entry's title and instructor repeat its name and hosters, its status
      follows its date, and the display defaults are fixed. */
  lemma ListingFields(t: Tables, today: Date)
    ensures var rows := ListMeetings(t, today).body.meetings;
      forall e :: e in rows ==>
        && e.title == e.name && e.instructor == e.hosters && e.status == MeetingStatus(e.date, today)
        && e.location == "Training Hall" && e.duration == "2 hours"
        && e.attendees == 0 && e.maxAttendees == 50 && e.category == "Medical Training"
  {
    ListingRows(t, today);
  }

  /** Every listed meeting has a creator in `users`, so a meeting whose creator has
      no `users` row is not listed. */
  lemma OrphansNotListed(t: Tables, today: Date, creatorId: string)
    requires forall u :: u in t.users ==> u.id != creatorId
    ensures forall e :: e in ListMeetings(t, today).body.meetings ==> e.createdBy != creatorId
  {
    ListedOnlyFromJoin(t, today);
    var rows := ListMeetings(t, today).body.meetings;
    forall e | e in rows
      ensures e.createdBy != creatorId
    {
      var i :| 0 <= i < |rows| && rows[i] == e;
      var m', u :| m' in t.meetings && u in t.users && u.id == m'.createdBy
        && rows[i] == ListedOf(Joined(m', u), today);
    }
  }

  /** A meeting just created by a known user is listed, with status "ongoing" when
      it is scheduled for today and "upcoming" otherwise (never "completed", since a
      date before today is refused); the creation answer itself always says
      "upcoming". */
  lemma CreatedMeetingListed(t: Tables, input: Row, creator: User, today: Date, now: int)
    requires CreateMeeting.CreateOutcome(t, input, creator.id, today, now).Ok?
    requires creator in t.users
    ensures var m := CreateMeeting.Validate(input, today).value;
      var t' := CreateMeeting.CreateEffect(t, m, creator.id, now);
      var e := ListedOf(Joined(CreateMeeting.NewMeeting(t, m, creator.id, now), creator), today);
      && e in ListMeetings(t', today).body.meetings
      && e.status == (if m.date == today then "ongoing" else "upcoming")
  {
    var m := CreateMeeting.Validate(input, today).value;
    var t' := CreateMeeting.CreateEffect(t, m, creator.id, now);
    CreateMeeting.ValidateExact(input, today);
    JoinPairsListed(t', today);
    assert CreateMeeting.NewMeeting(t, m, creator.id, now) in t'.meetings;
    StatusExact(m.date, today);
  }
}
