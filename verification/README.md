# Medi-Guru backend — a verified Dafny model

This project models the request handlers of the Medi-Guru training-meeting backend.
They are PHP scripts over a MySQL schema:

- **users** and **meetings**;
- four per-meeting detail tables: registrants, attendance, pre-test results and
  post-test results;
- a **files** manifest that names, for each meeting and each upload kind, the
  backup file currently standing for that kind.

The handlers modelled are:

- **Bulk upload** (`upload_file.dfy`, imperative methods on the `Database` class
  declared in `schema.dfy`). A spreadsheet's
  rows for one meeting and one kind replace that meeting's rows of that kind. Each
  field is read through an ordered list of candidate column names. Rows failing a
  check are skipped and reported as `Row {index+2}: …`. Missing test totals are
  inferred from the score. Only the kind's column of the manifest row is upserted,
  together with `created_at`. The reply carries the counts and a warning exactly
  when some row was refused.
- **Meeting statistics** (`meeting_statistics.dfy`, pure). This lists one kind's rows
  for a meeting ordered by name and summarises them: a head count, percentage
  statistics in tenths of a percent, or an attendance rate.
- **Upload status** (`upload_status.dfy`, pure). This gives per-kind status labels,
  the manifest's file information with live row counts, and the counts.
- **Create meeting** (`create_meeting.dfy`, mixed). The fields are validated in
  order, an occupied date-and-time slot is refused with 409, and otherwise one
  meeting is inserted and echoed back.
- **Meeting listing** (`meetings.dfy`, pure). This is the inner join of meetings
  with their creators, newest date and time first. Each row has a status computed
  from today's date, plus fixed display defaults.
- **Shared helpers** (`helpers.dfy`): `validateRequired`, `validateToken` and
  `getAuthHeader`.

Supporting modules:

- `php.dfy` covers the PHP value semantics the handlers rely on: `??` as "first key
  that is set", `trim`, `empty`, and decimal digits.
- `calendar.dfy` covers the strict `Y-m-d` / `H:i` round-trip checks.
- `order.dfy` covers SQL `ORDER BY` as a sort by a lexicographic integer key, proved
  to give a sorted permutation.
- `arith.dfy` covers `ROUND(…, 1)` as rounding half away from zero, in tenths.
- `schema.dfy` holds the tables, the `Database` class and the `WHERE meeting = id`
  filters.

The clock is a parameter: `now` is `time()`/`NOW()` in seconds and `today` is the
current date. A decoded JSON body is a `Row` map from keys to `Cell`s. A cell's
`text` is its string reading and its `number` its `intval` reading.

The model follows the code as written:

- **Tokens.** A token whose claims decode but carry no `exp` keeps its own claims
  and only gains `exp = now + 3600`. The fixed fallback identity replaces only
  claims that do not decode, or that decode to an empty object
  (`Helpers.ValidateToken`).
- **Column fallback.** It takes the first candidate column that is *set*
  (non-null), not the first non-empty one. So a present but blank `Name` column
  shadows a filled `name` column (`UploadFile.BlankNameShadows`).

## Model

| member | source | states |
|---|---|---|
| Php.TrimSpec | medi_helpers.php:19 | `trim` removes exactly the leading and trailing whitespace characters (space, tab, newline, return, NUL, vertical tab) and keeps the middle unchanged |
| Php.TrimIdempotent | medi_upload-file.php:87-90 | trimming an already trimmed field changes nothing |
| Php.BlankTrimsToEmpty | medi_helpers.php:19 | a value made only of whitespace trims to the empty string, so it counts as missing |
| Php.NatToStringRoundTrip | medi_upload-file.php:71 | the decimal spelling of the timestamp in the backup name reads back as that timestamp |
| Php.FixedDigitsRoundTrip | medi_create-meeting.php:53-56 | a zero-padded field of fixed width reads back as the number it spells |
| Php.DigitsRoundTrip | medi_create-meeting.php:53-56 | a run of digits is the zero-padded spelling of its own value |
| Php.FirstSetSpec | medi_upload-file.php:87 | the chosen candidate column is set and every earlier candidate is unset |
| Php.CoalesceSpec | medi_upload-file.php:87 | a chain of `??` yields nothing exactly when no candidate is set, and never yields NULL |
| Php.FirstSetKeyDecides | medi_upload-file.php:87-90 | when candidate `i` is the first set one, the field's text and number are those of column `i` |
| Calendar.ParseDate | medi_create-meeting.php:53-56 | accepted dates are real calendar dates whose canonical `YYYY-MM-DD` spelling is the input |
| Calendar.FormatParseDate | medi_create-meeting.php:53-56 | every real date's canonical spelling is accepted and parses back to that date |
| Calendar.February30Rejected | medi_create-meeting.php:53-56 | a `YYYY-02-30` spelling is refused in every year, leap years included |
| Calendar.ParseTime | medi_create-meeting.php:65-68 | accepted times are real clock times whose canonical `HH:MM` spelling is the input |
| Calendar.FormatParseTime | medi_create-meeting.php:65-68 | every clock time's canonical spelling is accepted and parses back to that time |
| Order.SortBy | medi_meeting-statistics.php:50 | `ORDER BY` returns a permutation of its rows that is sorted by the key |
| Order.SortedLength | medi_meeting-statistics.php:68 | sorting keeps the row count |
| Order.MapPermutation | medi_meeting-statistics.php:56-65 | formatting each row of two permutations of the same rows gives permutations of the same formatted rows |
| Arith.RoundDiv | medi_meeting-statistics.php:88 | the result is within half a unit of the exact quotient, and halves round away from zero |
| Arith.RoundDivBetween | medi_meeting-statistics.php:100 | a quotient between two whole numbers rounds to a value between them |
| Arith.RoundDivMonotone | medi_meeting-statistics.php:88 | a higher score never gives a lower rounded percentage for the same total |
| Arith.SumBetween | medi_meeting-statistics.php:98-100 | a sum of values between two bounds lies between the count times each bound |
| Arith.Max | medi_meeting-statistics.php:110 | `max` returns an element that bounds every element from above |
| Arith.Min | medi_meeting-statistics.php:111 | `min` returns an element that bounds every element from below |
| Arith.MeanBetween | medi_meeting-statistics.php:98-111 | the rounded mean of a non-empty list lies between its minimum and maximum |
| Schema.ParseKind | medi_upload-file.php:40-42 | exactly the four kind names are accepted, each naming its own kind |
| Schema.ParseKindName | medi_upload-file.php:40-42 | every kind's name is accepted as that kind |
| Schema.OfMeeting | medi_meeting-statistics.php:48-49 | `WHERE meeting = id` keeps exactly the rows of that meeting |
| Schema.NotOfMeeting | medi_upload-file.php:82-83 | `DELETE … WHERE meeting = id` leaves exactly the other meetings' rows |
| Schema.ReplaceMeetingRows | medi_upload-file.php:82-108 | delete-then-insert leaves exactly the inserted rows for the meeting and every other meeting's rows untouched |
| Helpers.MissingFields | medi_helpers.php:17-22 | the missing fields are exactly the required fields that are unset or blank after trimming, with no more entries than required fields |
| Helpers.MissingFieldsAppend | medi_helpers.php:17-22 | the missing fields of two consecutive parts of the required list are those of the first part followed by those of the second, so the report keeps the required order |
| Helpers.MissingFieldsInOrder | medi_helpers.php:17-25 | a present field between two missing ones drops out, and the missing ones are reported in required order |
| Helpers.NothingSetAllMissing | medi_helpers.php:16-26 | a body with none of the fields reports every required field, in order |
| Helpers.NoneMissing | medi_helpers.php:24-26 | the missing list is empty exactly when every required field is present and non-blank |
| Helpers.JoinComma | medi_helpers.php:25 | `implode(', ', …)` is empty for no parts; otherwise it starts with the first part, ends with the last, and is as long as all parts plus two characters per separator |
| Helpers.ValidateRequired | medi_helpers.php:16-27 | passes exactly when no required field is missing, else 400 naming all missing fields joined by ", " |
| Helpers.ValidateToken | medi_helpers.php:29-66 | 401 without a token; claims that do not decode are replaced by the fallback identity; claims without `exp` are kept and gain only `exp` = now + 3600; 401 exactly when the expiry is before now; accepted claims always expire no earlier than now |
| Helpers.ExpiryIsInclusive | medi_helpers.php:53-55 | a token expiring this second is accepted and one second later refused |
| Helpers.RemoveAll | medi_helpers.php:72 | `str_replace` never lengthens the header value, and it shortens it by a whole number of copies of "Bearer " |
| Helpers.RemoveAllPresent | medi_helpers.php:72 | a value containing "Bearer " gets strictly shorter |
| Helpers.RemoveAllAbsent | medi_helpers.php:72 | a value without "Bearer " is returned unchanged |
| Helpers.GetAuthHeader | medi_helpers.php:68-76 | null exactly when there is no Authorization header |
| Helpers.BearerTokenExtracted | medi_helpers.php:68-73 | the header `Bearer <token>` yields the token when the token itself does not contain "Bearer " |
| UploadFile.InferTotalMarks | medi_upload-file.php:173-187 | a non-zero sheet total is kept; a zero total becomes 20, 50 or 100 by score threshold, or the score itself above 100; an inferred total is positive and at least the score |
| UploadFile.InferTotalMarksExamples | medi_upload-file.php:177-186 | 15 → 20, 35 → 50, 150 → 150, and an explicit 30 is kept |
| UploadFile.RegisteredVerdict | medi_upload-file.php:87-108 | an inserted registrant belongs to the meeting and has a non-empty name and designation |
| UploadFile.AttendanceVerdict | medi_upload-file.php:126-151 | an inserted attendance row belongs to the meeting, carries the uploader and timestamp, and has non-empty name, login time and duration |
| UploadFile.TestVerdict | medi_upload-file.php:169-205 | an inserted test result belongs to the meeting, carries the uploader and timestamp, has a non-empty name, a non-negative score and a non-zero total |
| UploadFile.FirstFailingCheckReported | medi_upload-file.php:92-197 | the checks run in the source's order and the first failing one names the row's error |
| UploadFile.AcceptedRowsAsRead | medi_upload-file.php:87-205 | a row passing every check is inserted with the trimmed field values read through the candidate columns; a test row becomes exactly the result with its name, department, score as read, the inferred total, the uploader and the time |
| UploadFile.BlankNameShadows | medi_upload-file.php:87 | a present but blank `Name` column makes a registrant row fail with "Name is required" |
| UploadFile.RegisteredVerdicts | medi_upload-file.php:85-113 | one verdict per input row, in order |
| UploadFile.AttendanceVerdicts | medi_upload-file.php:124-156 | one verdict per input row, in order |
| UploadFile.TestVerdicts | medi_upload-file.php:167-210 | one verdict per input row, in order |
| UploadFile.EveryRowAccounted | medi_upload-file.php:85-113 | inserted rows plus error lines equal the number of input rows |
| UploadFile.AcceptedMembers | medi_upload-file.php:102-109 | a record is inserted exactly when some row's verdict accepts it |
| UploadFile.ErrorLineNamesRow | medi_upload-file.php:93 | an error line is `Row `, the decimal digits of the row index plus 2, `: ` and the reason |
| UploadFile.ErrorLinesExact | medi_upload-file.php:92-99 | the error list holds exactly `Row {i+2}: reason` for each refused row `i` |
| UploadFile.AcceptedTestTotals | medi_upload-file.php:177-205 | no stored test result has a zero total |
| UploadFile.AcceptedBelongToMeeting | medi_upload-file.php:108 | every inserted record carries the uploaded meeting's id |
| UploadFile.BatchOfVerdicts | medi_upload-file.php:75-76 | processed count plus error count equals the row count |
| UploadFile.BatchOf | medi_upload-file.php:79-267 | for every kind, processed count plus error count equals the row count |
| UploadFile.BackupName | medi_upload-file.php:71 | the backup name starts with the type and `_`, ends with `.json`, and is longer than its parts |
| UploadFile.BackupNameReadsBack | medi_upload-file.php:71 | the backup name is type, meeting id, user id and the timestamp's decimal digits joined by `_`, then `.json`; the digits read back as the timestamp |
| UploadFile.KindTitle | medi_upload-file.php:284 | `ucfirst` upper-cases the first letter of the kind name and keeps the rest |
| UploadFile.Upsert | medi_upload-file.php:270-277 | the meeting's manifest row exists afterwards with the kind's column set to the file and `created_at` to now; its other columns and every other meeting's row are unchanged |
| UploadFile.UpsertIdempotent | medi_upload-file.php:270-277 | recording the same file twice leaves the manifest as recording it once |
| UploadFile.UploadOutcome | medi_upload-file.php:31-298 | 400 exactly for an empty meeting id, type or data, or an unknown type; otherwise 200 with processed + errors = total = row count, a warning exactly when there are errors, and the backup name as the saved file |
| UploadFile.UploadReplaces | medi_upload-file.php:79-267 | afterwards the kind's table holds for the meeting exactly the accepted rows, and the other meetings' rows as before; the other tables are unchanged; the meeting's row count equals the processed count |
| UploadFile.ReplyMatchesTables | medi_upload-file.php:282-290 | the reported processed count equals the rows the meeting then holds for the kind, and the errors are the row loop's |
| UploadFile.UploadIdempotent | medi_upload-file.php:79-277 | uploading the same sheet twice leaves the tables as uploading it once |
| UploadFile.ReplaceRegistered | medi_upload-file.php:80-117 | the registrants of the meeting are replaced by the accepted rows; nothing else changes; the returned counts are those of the verdicts |
| UploadFile.ReplaceAttendance | medi_upload-file.php:119-160 | the same, for attendance |
| UploadFile.ReplacePretest | medi_upload-file.php:162-213 | the same, for pre-test results |
| UploadFile.ReplacePosttest | medi_upload-file.php:215-266 | the same, for post-test results |
| UploadFile.Upload | medi_upload-file.php:31-298 | replies as `UploadOutcome`; a refused request changes nothing; an accepted one leaves the tables as `UploadEffect` |
| MeetingStatistics.Percentage | medi_meeting-statistics.php:88 | the percentage is NULL exactly when the total is zero |
| MeetingStatistics.PercentageClose | medi_meeting-statistics.php:88 | the percentage, rounded once to tenths, is within 0.05 percentage points of 100 × score / total, and an exact half rounds away from zero, for positive and negative totals alike |
| MeetingStatistics.OneOfTwentyTwo | medi_meeting-statistics.php:88 | 1 mark out of 22 (4.5454…%) is reported as 4.5 |
| MeetingStatistics.PercentageBounds | medi_meeting-statistics.php:88 | a score between 0 and a positive total gives a percentage between 0.0 and 100.0 |
| MeetingStatistics.FullMarks | medi_meeting-statistics.php:88 | full marks are exactly 100.0 |
| MeetingStatistics.Percentages | medi_meeting-statistics.php:99 | the `percentage` column: one value per row, in order, NULL kept |
| MeetingStatistics.SumReading | medi_meeting-statistics.php:99 | `array_sum` reads each percentage as its value and NULL as 0 |
| MeetingStatistics.Known | medi_meeting-statistics.php:110-111 | the non-NULL percentages are exactly the values present; without NULL they are the column as summed |
| MeetingStatistics.TestSummaryOf | medi_meeting-statistics.php:97-112 | counts the rows; all zeros when there are none; otherwise the highest is NULL exactly when every percentage is, and else is attained and bounds them; the lowest is NULL exactly when some percentage is, and else is attained and bounds them; without NULL the average lies between lowest and highest |
| MeetingStatistics.TestSummaryExample | medi_meeting-statistics.php:97-112 | percentages 90.0 and 70.0 give average 80.0, highest 90.0 and lowest 70.0 |
| MeetingStatistics.NullPercentageLowest | medi_meeting-statistics.php:97-112 | a NULL percentage beside 80.0 gives average 40.0, highest 80.0 and lowest NULL |
| MeetingStatistics.AttendanceSummaryOf | medi_meeting-statistics.php:165-172 | expected attendees are at least one and at least the attendees; the rate is 100.0 exactly when anyone attended, else 0.0 |
| MeetingStatistics.FullAttendance | medi_meeting-statistics.php:172 | attendees over themselves round to exactly 100.0 |
| MeetingStatistics.RegisteredListing | medi_meeting-statistics.php:56-65 | one formatted row per registrant, in order |
| MeetingStatistics.ResultListing | medi_meeting-statistics.php:82-95 | one row per result, in order |
| MeetingStatistics.AttendanceListing | medi_meeting-statistics.php:152-163 | one row per attendance record, in order |
| MeetingStatistics.MeetingStatistics | medi_meeting-statistics.php:28-37 | 400 for an empty meeting id (checked first), then 400 for an unknown type; otherwise 200 with that kind's report for that meeting |
| MeetingStatistics.RegisteredListingFaithful | medi_meeting-statistics.php:56-65 | the listing stays in name order and shows each designation as the department, with status "registered" |
| MeetingStatistics.RegisteredReportFaithful | medi_meeting-statistics.php:41-79 | the registrant report lists, in name order, each of the meeting's registrants exactly once (a permutation of their formatted rows); the total equals the row count |
| MeetingStatistics.ResultListingFaithful | medi_meeting-statistics.php:82-95 | the results stay in name order, and each carries its computed percentage |
| MeetingStatistics.TestReportFaithful | medi_meeting-statistics.php:81-149 | a test report lists, in name order, each of the meeting's results of that test exactly once with its percentage, and counts them |
| MeetingStatistics.TestStatisticsFaithful | medi_meeting-statistics.php:97-112 | a test report's statistics are all zero without rows; the lowest is NULL exactly when a listed percentage is; without NULL the average lies between lowest and highest |
| MeetingStatistics.PercentagesNull | medi_meeting-statistics.php:99-111 | the percentage column holds NULL exactly when some listed row has no percentage |
| MeetingStatistics.AttendanceReportFaithful | medi_meeting-statistics.php:151-185 | the attendance report lists, in name order, each of the meeting's attendance records exactly once; the rate is 100.0 when anyone attended, else 0.0; the expected count is the row count, or 1 when there are no rows |
| MeetingStatistics.NonZeroTotalsHavePercentages | medi_meeting-statistics.php:88 | when every result has a non-zero total, every listed result has a percentage |
| MeetingStatistics.UploadedTestReported | medi_meeting-statistics.php:81-114 | after a test upload, the statistics count exactly the rows the upload processed, every listed result has a percentage, and the average lies between the lowest and the highest |
| UploadStatus.Status | medi_upload-status.php:28-118 | 400 exactly for an empty meeting id; otherwise 200 for that meeting |
| UploadStatus.LabelsFollowCounts | medi_upload-status.php:67-72 | "uploaded" exactly when the kind has rows; otherwise "pending" for registrants and attendance, "not-required" for the tests |
| UploadStatus.FileInfoExact | medi_upload-status.php:75-105 | a kind has a file entry exactly when the manifest row exists and its column is truthy; the entry names that file, with the row's `created_at` and the live count |
| UploadStatus.FileInfoKeys | medi_upload-status.php:75-105 | file entries are keyed only by the four kind names |
| UploadStatus.SummaryMatchesLabels | medi_upload-status.php:50-117 | the reply's summary holds the four live counts, its labels are each kind's label for its count ("uploaded" exactly when positive, else "pending" or "not-required"), and its `file_info` is the manifest's entries for the meeting |
| UploadStatus.BackupNameTruthy | medi_upload-file.php:71 | a backup file name is never empty or "0", so the status check treats it as set |
| UploadStatus.StatusAfterUpload | medi_upload-status.php:75-105 | after an upload, the kind's file entry names the new backup file with the upload's time and processed count, and the label reads "uploaded" exactly when a row was stored |
| CreateMeeting.CheckFields | medi_create-meeting.php:37-68 | the field checks fail only with 400; passing fields carry the trimmed name, topic and hosters |
| CreateMeeting.UserName | medi_create-meeting.php:97-104 | the join finds a creator name exactly when some user has the creator's id, and the name is that user's |
| CreateMeeting.Admit | medi_create-meeting.php:72-77 | a validated request is refused exactly when a meeting already holds its date and time |
| CreateMeeting.CreateOutcome | medi_create-meeting.php:33-122 | the handler's replies are a 400, a 409 for a taken slot, or a 201 whose status is "upcoming" |
| CreateMeeting.Insert | medi_create-meeting.php:70-92 | 409 with the tables unchanged when the slot is taken; otherwise one meeting with the next id and the caller as creator is appended |
| CreateMeeting.Create | medi_create-meeting.php:33-122 | replies as `CreateOutcome`; every refusal leaves the tables unchanged; success leaves them as `CreateEffect` |
| CreateMeeting.ValidateExact | medi_create-meeting.php:33-68 | validation passes exactly when all five fields are present, the name has at least 3 and the topic at least 10 characters after trimming, the date is a real `YYYY-MM-DD` date no earlier than today, and the time a real `HH:MM` time; the accepted values are those |
| CreateMeeting.CheckedFieldsValid | medi_create-meeting.php:53-68 | an accepted date and time are real and spell back to the submitted text |
| CreateMeeting.FirstFailureReported | medi_create-meeting.php:44-50 | a short name is reported whatever else is wrong, then a short topic before any date or time error |
| CreateMeeting.TodayAccepted | medi_create-meeting.php:58-62 | a meeting dated today is accepted |
| CreateMeeting.CreatePreservesInvariants | medi_create-meeting.php:71-92 | a successful creation keeps (date, time) slots distinct and ids below the counter, appends one meeting owned by the caller, and gives it an id no earlier meeting has |
| CreateMeeting.OccupiedSlotRefused | medi_create-meeting.php:71-77 | a valid request for an occupied slot gets 409 whatever its other fields |
| CreateMeeting.EchoFaithful | medi_create-meeting.php:94-120 | the echoed meeting has the new id, the trimmed fields, the time with seconds, the caller as creator and the creator's name |
| Meetings.CreatorsOf | medi_meetings.php:46 | the join rows of a meeting are exactly its pairs with users whose id is its creator |
| Meetings.Join | medi_meetings.php:45-46 | the inner join holds exactly the (meeting, user) pairs with the user's id equal to the creator |
| Meetings.Format | medi_meetings.php:54-76 | one formatted entry per fetched row, in order |
| Meetings.ListMeetings | medi_meetings.php:78-82 | the listing always answers 200 with its fixed message |
| Meetings.StatusExact | medi_meetings.php:40-44 | "upcoming" exactly for dates after today, "ongoing" exactly for today, "completed" exactly for earlier dates |
| Meetings.NewestFirstOrder | medi_meetings.php:47 | ascending order of the negated key is descending date, then descending time |
| Meetings.ListingPermutesJoin | medi_meetings.php:45-82 | the entries are every row of the inner join exactly once, formatted, and `total` counts the joined rows |
| Meetings.JoinPairsListed | medi_meetings.php:45-76 | every meeting whose creator is a user is listed with that creator's name and role |
| Meetings.ListedOnlyFromJoin | medi_meetings.php:45-76 | every entry comes from a meeting joined with its creator |
| Meetings.ListingNewestFirst | medi_meetings.php:47 | entries run from the latest date to the earliest, and within a date from the latest time |
| Meetings.ListingFields | medi_meetings.php:56-75 | title repeats the name, instructor the hosters, status follows the date, and location, duration, attendees, capacity and category are the fixed defaults |
| Meetings.OrphansNotListed | medi_meetings.php:46 | a meeting whose creator has no user row is not listed |
| Meetings.CreatedMeetingListed | medi_meetings.php:40-46 | a meeting just created by a known user is listed as "ongoing" when dated today and "upcoming" otherwise, although creation always answers "upcoming" |

## Left out

- Login (`medi_login.php`) and the database connection (`medi_database.php`) are not part of this model.
- CORS headers, the `OPTIONS` preflight and the 405 method check are left out. They do not touch the tables.
- Base64 and JSON decoding are left out. Decoded values are inputs: a `Row` for a body or sheet row, and an `Option` of claims for a token.
- `intval` parsing is left out. Each cell carries its integer reading as a separate input.
- Writing the backup JSON file and creating `medi_uploads/` are file-system effects and are left out. Only the file's name and path are modelled.
- Database exceptions are left out. This covers per-row insert failures reported as `Row n: <message>`, the 500 replies, and transaction rollback.
- Concurrent requests are left out. Each handler runs alone on the tables.
- `UploadFile.UploadIdempotent`: holds for a repeat with the same user and timestamp. A repeat at a later time differs only in the manifest's file name and `created_at`.
- `Order.SortBy`: rows with equal sort keys come out in one particular order. SQL leaves that order unspecified, so the lemmas state only sortedness and membership.
- Sorting by name uses code-point order. MySQL's collation (case-insensitive comparison, accent rules) is left out.
- `CreateMeeting.CheckFields`: `strlen` counts bytes, while the model counts characters. They differ for non-ASCII names and topics.
- Percentages are integers in tenths. PHP's float `round` and `array_sum` over floats are modelled as exact decimal arithmetic with half-away-from-zero rounding. Binary floating-point artefacts are left out.
- `MeetingStatistics.Percentage`: MySQL carries `score / total_marks` into `ROUND` at nine decimals, and the model uses the exact quotient. The two give the same tenth whenever the total is below one million marks in magnitude; larger totals are not modelled separately.
- Dates and times in the listing and the stored meetings are values, not their text. The create reply spells them out (`YYYY-MM-DD` and `HH:MM:00`).
- Meeting ids in requests and detail tables are text. PHP's `!$meetingId` is read as `empty` on that text, so "0" is refused.
- A token's `user_id` reaches the handlers as text.
- `Helpers.ValidateToken`: `exp` is compared through its integer reading. PHP's loose comparison of a non-numeric string or boolean `exp` with the time (which can accept such a token for ever) is not modelled.
- `UploadFile.UploadOutcome`: the `type` field is matched through its string reading. A boolean `true`, which passes PHP's loose `in_array`, is not modelled.
- `UploadStatus.FileInfoExact`: `file_info` is a map, so the key order of the JSON reply is not kept.
- `MeetingStatistics.TestSummaryOf`: the percentages come back from PDO as numeric strings. PHP 8 orders NULL below them, and that is how `max` and `min` treat a NULL percentage here. Comparing the strings themselves is not modelled.
