# Classroom attendance system — a verified model of its core

The system runs a small classroom. Students book class slots on dates; the
staff see each day's roster, record attendance and absence, and move a
booking to a makeup lesson. Every student has an information page with a
month calendar. This project models in Dafny the logic behind those pages
and proves what it promises:

- **Live dashboard** (`live_dashboard.dfy`). The day's flat roster rows are
  folded into one group per class slot, in order of first appearance. The
  page chooses the class to show: the one in progress, else the next to
  start, else the last. The class's list is split into attendees and
  absentees, and prev/next navigation keeps the index in range. The page
  state is a `Dashboard` class whose handlers update its fields.
- **Makeup transfer** (`schedule_transfer.dfy`). This file covers the UTC
  weekday of the makeup date, the two first-occurrence de-duplication loops
  (cancellable slots, and the makeup roster without absences), and the
  three-step transfer. The transfer acts on a `ScheduleTable` class: it
  marks the original booking `欠席` (absent), then books a `振替` (makeup)
  lesson, with no rollback between the steps.
- **Student calendar** (`student_info.dfy`). This file covers the next
  upcoming booking, the notes history, bookings grouped by date,
  attendance logs counted per UTC date, and the month grid: blanks up to
  the weekday of the 1st, then one classified cell per day of the
  Gregorian month.
- **Batch attendance** (`batch_process.dfy`). "Today" is the UTC date of
  the instant plus nine hours. The noon-JST timestamp is recorded for a
  date, the row id is built from a user id and a slot id, and the page's
  request guards are modelled.
- **User tables** (`users_table.dfy`, `user_app_table.dfy`). The
  `/api/users` handlers of the attendance server and of the stand-alone
  user management app act on a keyed table, modelled as a `Table` class
  with a `map` field. The model covers required fields, trim-or-null
  normalisation, primary-key and unique-email constraints, and the
  400/404 replies.
- **Permission insertion** (`permissions.dfy`). The tool splits each
  route key, escapes the route for a regular expression, and inserts
  `checkPermission('<perm>'), ` after every handler head of that exact
  route. It counts the keys whose substitution changed the server source.

Shared pieces are `text.dfy` (decimal rendering, `padStart`, JavaScript
string order, `trim`), `seqs.dfy` (`filter` and first-occurrence
de-duplication), `sorting.dfy` (`ORDER BY` as sorted insertion) and
`civil_date.dfy`. The last one holds the calendar arithmetic of ECMAScript's
`Date` (section 21.4.1 of ECMA-262) and the `YYYY-MM-DD` calendar dates of
ISO 8601 (section 4.1.2.2 of ISO 8601:2004). `status.dfy` holds the status
texts, and `wrappers.dfy` the `Option` type.

Times are epoch milliseconds, as integers. Dafny's `/` and `%` round
toward negative infinity here, which is what ECMAScript's `Day(t)` and
`WeekDay(t)` do. Web requests, the clock and the host's local time enter as
parameters.

## Model

| member | source | states |
|---|---|---|
| LiveDashboard.GroupRows | public/live-dashboard.js:112-125 | the `slotsMap` fold followed by `Array.from(values())` gives exactly `Groups(rows)`: one group per slot, in the map's insertion order |
| LiveDashboard.Groups | public/live-dashboard.js:112-125 | the definition of the day's classes: one group per first row of a slot, holding that slot's rows with a student; GroupsOnePerSlot, GroupsMembers and GroupRows state its properties |
| LiveDashboard.GroupsOnePerSlot | public/live-dashboard.js:112-125 | the slots of the groups are pairwise distinct and every input slot has a group; group `t` takes its name and times from the first row of its slot, and those first rows come in increasing input order |
| LiveDashboard.GroupsMembers | public/live-dashboard.js:114-123 | a row is in a group's schedules iff it is an input row of that slot with a truthy `user_id`; the schedules are the input filtered to that slot, in input order |
| LiveDashboard.UsersOfSlotMembers | public/live-dashboard.js:121-123 | a row is listed under slot `k` iff it is an input row of slot `k` that books a student |
| LiveDashboard.UsersOfSlotIsFilter | public/live-dashboard.js:121-123 | the rows pushed for a slot are the `filter` of the input to that slot's rows that have a student |
| LiveDashboard.ChooseClass | public/live-dashboard.js:127-159 | the index is -1 for no classes; otherwise it is in range, no earlier class is in progress or upcoming, and the chosen one is, unless it is the last class |
| LiveDashboard.ChoiceUnique | public/live-dashboard.js:134-152 | the selection rule determines exactly one index |
| LiveDashboard.Eligible | public/live-dashboard.js:137-146 | the definition of the loop's two tests: in progress (started, not ended) or not yet started; EligibleIffNotEnded and EligibleByMinutes state what it means |
| LiveDashboard.EligibleIffNotEnded | public/live-dashboard.js:137-146 | for a slot that does not end before it starts, "in progress or upcoming" is "not yet ended" |
| LiveDashboard.HhMmOrder | public/live-dashboard.js:129 | on zero-padded `HH:MM` texts, string `<` is the order of minutes of the day |
| LiveDashboard.EligibleByMinutes | public/live-dashboard.js:129-146 | with zero-padded slot times, the string tests of the loop are minute-of-day comparisons |
| LiveDashboard.AttendancePartition | public/live-dashboard.js:38-39 | attendees and absentees are disjoint, together are the schedules (as a multiset and in number), split on `status === '欠席'`, each in input order |
| LiveDashboard.StatusTag | public/live-dashboard.js:49 | a tag is shown iff the status is not `通常` (regular), and it shows the status; the contract is the two-way decision itself and holds no proof |
| LiveDashboard.Controls | public/live-dashboard.js:52-55 | a present student gets only the cancel control; anyone else gets record-attendance and mark-absent; the contract is the two-way decision itself |
| LiveDashboard.ControlsExclusive | public/live-dashboard.js:52-55 | a card offers cancelling or recording attendance, never both, marking absent exactly when it offers recording, each control for that card's own student or booking |
| LiveDashboard.Dashboard.constructor | public/live-dashboard.js:16-17 | the page starts with no classes and index -1 |
| LiveDashboard.Dashboard.Render | public/live-dashboard.js:26-96 | an index out of range shows "no class" with both buttons disabled; otherwise the class with its attendees and absentees, prev disabled iff index <= 0, next disabled iff index >= length - 1 |
| LiveDashboard.Dashboard.LoadDay | public/live-dashboard.js:98-165 | a failed request leaves the classes and index as they were and shows the failure; otherwise the classes are `Groups(results)`, the index is the selection at the local `HH:MM`, and the view is rendered |
| LiveDashboard.Dashboard.ClickPrev | public/live-dashboard.js:171 | the index moves down by one only when above 0 and stays a class of the day |
| LiveDashboard.Dashboard.ClickNext | public/live-dashboard.js:172 | the index moves up by one only when below the last class and stays a class of the day |
| ScheduleTransfer.UtcDayAsWritten | public/schedule.js:27-29 | `new Date(Date.UTC(y, m - 1, d)).getUTCDay()`, always in 0..6 |
| ScheduleTransfer.CivilWeekDay | public/schedule.js:27-29 | the weekday of the calendar date itself, in 0..6 |
| ScheduleTransfer.CivilWeekDayIsWeekday | public/schedule.js:27-29 | 1970-01-01 is a Thursday and the weekday advances by one from each date to the next, so it does not depend on the host's time zone |
| ScheduleTransfer.UtcDayAgrees | public/schedule.js:28-29 | for years outside 0..99 the expression as written is the weekday of the date |
| ScheduleTransfer.UtcDayExample | public/schedule.js:28-29 | 2025-07-20 is a Sunday |
| ScheduleTransfer.UtcDayTwoDigitYear | public/schedule.js:28 | in year 50 the expression gives Thursday, the weekday of 1950-07-20, while 0050-07-20 was a Wednesday |
| ScheduleTransfer.MakeupWeekDay | public/schedule.js:21-29 | no query for an empty date; otherwise the weekday, in 0..6, of the date entered |
| ScheduleTransfer.MakeupWeekDayAsWritten | public/schedule.js:21-29 | the handler as written: no query exactly for an empty date |
| ScheduleTransfer.MakeupWeekDayAgrees | public/schedule.js:27-29 | the handler as written and the corrected one agree for every year from 100 on |
| ScheduleTransfer.MakeupWeekDayTwoDigitYear | public/schedule.js:28 | on the input `0050-07-20` the handler as written asks for weekday 4 where the date's weekday is 3 |
| ScheduleTransfer.UniqueBySlot | public/schedule.js:86-93 | the loop with its `Set` of seen slots gives the first schedule of each slot, in input order |
| ScheduleTransfer.CancelSlotsShape | public/schedule.js:86-100 | the cancel list has pairwise distinct slots, every input slot is in it, and each entry is the first schedule of its slot, in input order |
| ScheduleTransfer.UniqueRoster | public/schedule.js:121-131 | the roster is the non-absent schedules, first occurrence per student, in order |
| ScheduleTransfer.RosterShape | public/schedule.js:121-131 | the roster holds no absent booking, lists each student at most once, and lists every student who has a non-absent booking |
| ScheduleTransfer.UpdateRosterDisplay | public/schedule.js:111-146 | without a makeup date or slot the panel is hidden; a failed fetch or a reply that is not a list leaves the panel as it was; otherwise it shows the de-duplicated roster |
| ScheduleTransfer.PopulateCancelSlots | public/schedule.js:77-103 | without a date or a student, or when the fetch fails or its reply is not a list, the list stays as it was; otherwise it is the de-duplicated schedules |
| ScheduleTransfer.MakeupBooking | public/schedule.js:184-190 | the new booking has the student, makeup date and slot, status `振替`, and the default PC when it is truthy, else null |
| ScheduleTransfer.MarkedAbsent | public/schedule.js:170-174 | the status update sets that one booking to `欠席` and leaves every other row and the set of ids alone |
| ScheduleTransfer.ScheduleTable.Transfer | public/schedule.js:150-212 | the three rejections in order with no change; a failed cancel changes nothing; a later failure leaves the original absent and books nothing; success adds exactly the makeup booking under a fresh id |
| ScheduleTransfer.NoRollback | public/schedule.js:175-201 | after the cancel step the original booking is absent, and the table differs from before iff it was not absent already |
| StudentInfo.UpcomingMembers | public/info.js:43-44 | a booking is upcoming iff it is one of the student's, dated today or later, and not absent |
| StudentInfo.Earliest | public/info.js:45-48 | the first element after the stable sort exists iff the list is non-empty |
| StudentInfo.EarliestIsFirstMinimum | public/info.js:45-48 | the first element after a stable sort by date has the least date and comes first among the bookings on that date |
| StudentInfo.NextSchedule | public/info.js:41-53 | the definition: the first of the upcoming bookings in stable date order; NextScheduleIsEarliestUpcoming states what it picks |
| StudentInfo.NextScheduleIsEarliestUpcoming | public/info.js:41-53 | the next booking shown is upcoming, not absent, and no upcoming booking is earlier; there is none iff nothing is upcoming |
| StudentInfo.NotesHistoryExact | public/info.js:55-61 | the history lists exactly the bookings with notes, in input order, and the panel is left alone iff there are none |
| StudentInfo.OnDateMembers | public/info.js:84-92 | a booking is listed under a date iff it is one of the input, not absent, on that date |
| StudentInfo.OnDateIsFilter | public/info.js:84-92 | a date's list is the `filter` of its non-absent bookings, so it keeps input order |
| StudentInfo.OnDateNonEmpty | public/info.js:87-90 | a date has a list iff some non-absent booking is on it |
| StudentInfo.SchedulesByDate | public/info.js:84-92 | the map's keys are exactly the booked dates and each holds that date's non-absent bookings in input order |
| StudentInfo.TallyStep | public/info.js:98-99 | one more log adds one to its date's count, starting a new date at 1 |
| StudentInfo.CountDates | public/info.js:96-100 | the loop leaves exactly the dates that occur as keys, each with the number of times it occurs |
| StudentInfo.AttendanceByDate | public/info.js:95-100 | the keys are exactly the UTC dates of the logs and each count is the number of logs on that date, at least 1 |
| StudentInfo.AttendanceSum | public/info.js:95-100 | summed over the distinct dates, the counts are the number of logs |
| StudentInfo.KindOf | public/info.js:111-119 | more than one log gives `multiple` and exactly one gives `attended`; `scheduled` only without attendance and with a booking; else plain |
| StudentInfo.DayString | public/info.js:109 | the definition of a day's key, with the year unpadded as the code writes it; DayStringIsIsoDate relates it to `YYYY-MM-DD` |
| StudentInfo.DayStringIsIsoDate | public/info.js:109 | for four-digit years the day's key is the `YYYY-MM-DD` text of that date, the form of `class_date` |
| StudentInfo.SlotNames | public/info.js:125-127 | the slot names of the day's bookings, one per booking, in order |
| StudentInfo.DayCell | public/info.js:110-129 | the definition of a day's cell from the bookings and logs; DayCellFromMaps proves that the page's map lookups give it |
| StudentInfo.DayCellFromMaps | public/info.js:109-129 | the cell drawn from the two maps is the day's cell defined from the bookings and logs |
| StudentInfo.MonthLayout | public/info.js:78-79 | `new Date(y, m, 1).getDay()` is the weekday of the 1st, and `new Date(y, m + 1, 0).getDate()` is the Gregorian length of the month, December included |
| StudentInfo.FirstWeekDay | public/info.js:78 | the column of the 1st is in 0..6 |
| StudentInfo.MonthLength | public/info.js:79 | the month has 28 to 31 days |
| StudentInfo.DayCells | public/info.js:108-133 | the first `n` day cells are `n` cells |
| StudentInfo.GridLayout | public/info.js:104-133 | the grid has `firstDay` blanks, then day cells numbered 1..n, each the cell of that day |
| StudentInfo.CalendarLayout | public/info.js:78-133 | the calendar is blanks up to the weekday of the 1st, then the cells of days 1 to the month's length |
| StudentInfo.RenderCalendar | public/info.js:70-133 | the two loops build exactly the calendar of the month |
| BatchProcess.TodayString | public/batch-process.js:8-14 | the date part of `toISOString()` nine hours after `now`; TodayIsJstDate proves it is the Japanese calendar date |
| BatchProcess.TodayIsJstDate | public/batch-process.js:8-14 | today is the `YYYY-MM-DD` text of the UTC date of now + 9 h, ten characters that read back as that date in four-digit years |
| BatchProcess.TodayRollover | public/batch-process.js:11-13 | from 15:00 UTC it is the next day in Japan, before it the same day |
| BatchProcess.NoonJst | public/batch-process.js:69 | the instant exists iff the date text is a real `YYYY-MM-DD` date |
| BatchProcess.NoonOfDate | public/batch-process.js:69 | noon in Japan on a date is 03:00 UTC on that date |
| BatchProcess.IsoStringOfNoon | public/batch-process.js:69 | `toISOString()` of the noon instant is the date followed by `T` and the 03:00 UTC time |
| BatchProcess.LogTimeForDate | public/batch-process.js:69 | there is a log time exactly when the chosen text is a real `YYYY-MM-DD` date; otherwise `toISOString` throws |
| BatchProcess.LogTimeForDateShape | public/batch-process.js:69 | the recorded log time is the date followed by `T03:00:00.000Z`, whose UTC date is the chosen date |
| BatchProcess.TodayOfNoon | public/batch-process.js:69 | the +9 h rule applied to noon of a date gives back that date |
| BatchProcess.TodayOfNoonJst | public/batch-process.js:69 | round trip: the +9 h rule applied to the recorded timestamp gives back the chosen date text |
| BatchProcess.RowId | public/batch-process.js:32 | the definition `row-<user>-<slot>`, with the slot in decimal; RowIdInjective proves what makes it an id |
| BatchProcess.RowIdInjective | public/batch-process.js:32 | distinct (user, numeric slot) pairs have distinct row ids, whatever the user id holds |
| BatchProcess.SubmitDate | public/batch-process.js:52-58 | the list is fetched iff the date is non-empty, for that date |
| BatchProcess.ClickRequest | public/batch-process.js:65-98 | attend sends an entry log iff the date is valid, with the noon-JST time; absent sends the make-absent request iff user and slot ids are present |
| CivilDate.DaysInMonth | public/info.js:79 | 28 to 31 days, and February has 29 exactly in Gregorian leap years |
| CivilDate.CivilOfValid | public/schedule.js:28 | every day number names a real date whose day number it is |
| CivilDate.DayNumberCivil | public/schedule.js:28 | a real date's day number leads back to that date |
| CivilDate.MakeDay | public/info.js:78-79 | the definition of `MakeDay` for `new Date(y, m, d)`, with the month carried into the year; MonthLayout and DayZeroOfNextMonth use it |
| CivilDate.JsYear | public/schedule.js:28 | the definition of the year mapping `Date.UTC` and `new Date(y, m, d)` apply: 0..99 read as 1900..1999; the Findings row shows its effect |
| CivilDate.WeekDay | public/schedule.js:29 | `(Day + 4) mod 7` lies in 0..6 |
| CivilDate.WeekDaySuccessor | public/schedule.js:29 | consecutive days have consecutive weekdays, and 1970-01-01 is a Thursday |
| CivilDate.DayZeroOfNextMonth | public/info.js:79 | day 0 of the next month is the last day of this month |
| CivilDate.ParseIsoDate | public/batch-process.js:69 | a date that parses is a real date with a four-digit year |
| CivilDate.IsoDateRoundTrip | public/batch-process.js:13 | a formatted date is ten characters and parses back to the date |
| CivilDate.ParseIsoDateSound | public/batch-process.js:69 | a text that parses is exactly its date's formatted text |
| CivilDate.UtcIsoDate | public/info.js:97 | the definition of `toISOString().split('T')[0]` on an instant; UtcIsoDateIsDate proves it is the formatted UTC date |
| CivilDate.UtcIsoDateIsDate | public/info.js:97 | `toISOString().split('T')[0]` is the formatted UTC date of the instant |
| CivilDate.IsoStringOn | public/batch-process.js:69 | `toISOString()` of an instant is its UTC date, `T`, and its time of day |
| CivilDate.IsoDateInjective | public/info.js:113 | distinct four-digit-year dates have distinct keys |
| Text.FixedRoundTrip | public/live-dashboard.js:129 | `padStart(width, '0')` of a number that fits gives `width` digits that read back as the number |
| Text.DecimalInjective | public/batch-process.js:32 | distinct numbers have distinct decimal texts |
| Text.LessTrichotomy | public/live-dashboard.js:137 | string `<` is a strict total order: exactly one of less, equal, greater |
| Text.LessEqTransitive | public/info.js:44 | string `<=` is transitive |
| Text.TrimShape | server.js:64-66 | `trim()` is a slice of its input with only white space cut off, and none left at either end |
| Text.TrimIdempotent | server.js:64-66 | trimming twice is trimming once |
| Text.TrimEmptyIffAllSpace | server.js:64-66 | `trim()` is empty iff the text is all white space |
| Text.BeforeFirstConcat | public/batch-process.js:13 | `split(c)[0]` of a text with its first `c` after `a` is `a` |
| Seqs.FilterIndices | public/live-dashboard.js:38-39 | `filter` keeps the elements satisfying the test, each at an increasing input position, and drops none of them |
| Seqs.FilterPartition | public/live-dashboard.js:38-39 | a test and its negation split a list into two whose multisets add up to it |
| Seqs.KeepFirstIndices | public/schedule.js:88-92 | the de-duplicated list is the first occurrences of the keys, at increasing input positions, and misses none |
| Seqs.KeepFirstDistinct | public/schedule.js:88-92 | the de-duplicated list has pairwise distinct keys |
| Seqs.KeepFirstKeys | public/schedule.js:88-92 | the de-duplicated list has the same set of keys as the input |
| Seqs.SumCountsTotal | public/info.js:95-100 | the occurrence counts over a list of distinct keys covering the input add up to its length |
| Sorting.Insert | server.js:49 | inserting into a list sorted by name keeps it sorted, adds just that row (as a multiset), and puts a row no greater than all others first |
| UsersTable.Normalize | server.js:64-66 | null iff the field is missing or all white space, else the non-empty trimmed text |
| UsersTable.NormalizeIdempotent | server.js:64-66 | a stored value normalises to itself and has no white space at either end |
| UsersTable.PostOn | server.js:57-75 | 400 "id and name required" iff either is missing or empty; 400 "id in use" iff the id exists; created otherwise; the table changes only on creation |
| UsersTable.PostAddsOne | server.js:68-73 | a creation adds exactly one row, with id and name as sent and the other fields normalised, echoed in the reply, and keeps every other row |
| UsersTable.PostTwiceRefused | server.js:68-72 | the same registration a second time is refused with "id in use" and changes nothing |
| UsersTable.PutOn | server.js:78-96 | 400 iff the name is missing; 404 iff no row has the id; updated otherwise; the table changes only on update |
| UsersTable.PutChangesOne | server.js:86-94 | an update replaces that row's fields and leaves the ids and every other row alone |
| UsersTable.DeleteOn | server.js:99-106 | deleted iff the id exists, else 404 with no change; only that row goes |
| UsersTable.DeleteUndoesPost | server.js:57-106 | deleting a user just created restores the table |
| UsersTable.HandlersKeepValid | server.js:18-24 | every handler keeps each row under its own non-empty id with a non-empty name |
| UsersTable.ListsMembers | server.js:48-53 | a user is listed iff it is a row of the table |
| UsersTable.Table.Get | server.js:48-53 | the list is sorted by name and holds every row exactly once and nothing else |
| UsersTable.Table.Post | server.js:57-75 | the reply and the new table are those of the POST handler, and the table stays valid |
| UsersTable.Table.Put | server.js:78-96 | the reply and the new table are those of the PUT handler, and the table stays valid |
| UsersTable.Table.Delete | server.js:99-106 | the reply and the new table are those of the DELETE handler, and the table stays valid |
| UserAppTable.PostOn | user-management-app/server.js:24-37 | 400 "all required" iff a field is missing or empty; 400 "id or email in use" iff the id or the email is taken; otherwise created, echoing `{id, name, email}`, with exactly that row added |
| UserAppTable.PutOn | user-management-app/server.js:40-59 | 400 iff name or email is missing; 404 iff the id is absent; 400 "email in use" iff another row has the email; otherwise only that row changes |
| UserAppTable.DeleteOn | user-management-app/server.js:62-75 | deleted iff the id exists, else 404 with no change; only that row goes |
| UserAppTable.HandlersKeepValid | user-management-app/database.js:10-14 | every handler keeps ids and emails unique and the required columns non-empty |
| UserAppTable.PutOwnEmail | user-management-app/server.js:44-58 | resubmitting one's own email is not a clash |
| UserAppTable.DeleteUndoesPost | user-management-app/server.js:24-75 | deleting a user just created restores the table |
| UserAppTable.Table.Get | user-management-app/server.js:13-21 | the list is sorted by name and holds every row exactly once and nothing else |
| UserAppTable.Table.Post | user-management-app/server.js:24-37 | the reply and the new table are those of the POST handler, and the table stays valid |
| UserAppTable.Table.Put | user-management-app/server.js:40-59 | the reply and the new table are those of the PUT handler, and the table stays valid |
| UserAppTable.Table.Delete | user-management-app/server.js:62-75 | the reply and the new table are those of the DELETE handler, and the table stays valid |
| Permissions.SplitKey | apply_permissions.js:91 | a key yields a method and a route iff it holds a space |
| Permissions.SplitKeyJoin | apply_permissions.js:91 | `verb + " " + route` splits back into that verb and route |
| Permissions.LowerChar | apply_permissions.js:92 | capital ASCII letters move to lower case and every other character is kept |
| Permissions.Lower | apply_permissions.js:92 | the method is lowered character by character |
| Permissions.LowerIdempotent | apply_permissions.js:92 | lowering twice is lowering once, and leaves no capital letter |
| Permissions.Escape | apply_permissions.js:95 | the escaped route is longer by the number of metacharacters |
| Permissions.EscapeIsLiteral | apply_permissions.js:95 | as a pattern, the escaped route matches exactly the route's own text |
| Permissions.EscapeNoMeta | apply_permissions.js:95 | a route without metacharacters is left as it is |
| Permissions.SkipSpaces | apply_permissions.js:100 | `\s*` takes the longest run of white space |
| Permissions.CallOpen | apply_permissions.js:100 | the match of `app\.<m>\s*\(` ends just after a `(` |
| Permissions.QuotedRoute | apply_permissions.js:100 | the match ends just after a closing quote, and the route text sits right after an opening quote |
| Permissions.Comma | apply_permissions.js:100 | the `\s*,` part ends just after the comma |
| Permissions.HandlerHead | apply_permissions.js:100 | a handler head ends just after its comma, past `app.<m>` |
| Permissions.MatchLength | apply_permissions.js:100 | a match starts with a handler head and ends no earlier than its comma |
| Permissions.Insertion | apply_permissions.js:103 | the inserted text starts with `checkPermission(` |
| Permissions.Rewrite | apply_permissions.js:105 | `content.replace` with the global flag, match by match from the start, never searching inserted text; the result is never shorter than the text (what it inserts is in RewriteLength and RewriteChanges) |
| Permissions.RewriteLength | apply_permissions.js:105 | the global replace only inserts: the text grows by one insertion per match |
| Permissions.RewriteNoMatch | apply_permissions.js:105 | with no match the text is unchanged |
| Permissions.RewriteChanges | apply_permissions.js:105-107 | the text changes iff some handler matched |
| Permissions.RewriteGrows | apply_permissions.js:105 | the text never shrinks, and grows whenever it changes |
| Permissions.ExactRouteOnly | apply_permissions.js:100 | in any text, whatever its white space and quotes, the keys for a route and for a longer path extending it (such as `/api/users` and `/api/users/:id`) do not both match |
| Permissions.RouteBetweenQuotes | apply_permissions.js:100 | in any text that matches, the route text has a quote right before it and right after it |
| Permissions.QuotedRouteExact | apply_permissions.js:100 | from one position, a route and its extension by a non-quote character are never both quoted |
| Permissions.HeadOfExtension | apply_permissions.js:100 | the handler head depends only on the text up to the end of the match |
| Permissions.RewrittenHandlerSkipped | apply_permissions.js:100-105 | with the corrected lookahead, a handler just guarded is not matched again, whatever follows the insertion |
| Permissions.AsWrittenMatchesAgain | apply_permissions.js:100 | as written, a guarded handler with white space after its comma matches again, one character shorter |
| Permissions.AsWrittenNotIdempotent | apply_permissions.js:100-105 | as written, a second substitution changes a text the first already guarded |
| Permissions.UsersHandlerMatch | apply_permissions.js:100 | on `app.get('/api/users', h)` the head ends at 21 and both forms match 22 characters |
| Permissions.UsersHandlerGuardedTwice | apply_permissions.js:100-113 | as written, running the `/api/users` key again on its own output changes it once more |
| Permissions.Substitute | apply_permissions.js:91-105 | one key's substitution never shortens the text and lengthens it whenever it changes it |
| Permissions.Step | apply_permissions.js:90-113 | one entry fails iff its key has no space; otherwise the count goes up by one iff the text changed |
| Permissions.RunPrefixNone | apply_permissions.js:82-122 | once a key fails to split, the whole run fails and nothing is written |
| Permissions.RunSome | apply_permissions.js:90-114 | when every key holds a space, the run completes |
| Permissions.RunNone | apply_permissions.js:91-95 | a key without a space makes the run fail |
| Permissions.Run | apply_permissions.js:90-114 | the loop as written, entry by entry, for either lookahead; a completed run counts at most one change per entry and never shortens the text |
| Permissions.RunChanges | apply_permissions.js:107-113 | the count is at most the number of entries, the text grows by at least one character per counted change, and a zero count means the text is unchanged |
| Permissions.PermissionMapRuns | apply_permissions.js:10-52 | every key of the permission map splits, so the run over it completes |
| Permissions.ApplyEntry | apply_permissions.js:91-110 | one entry, with the corrected lookahead: no result for a key without a space, otherwise the text after the substitution and the count raised by one exactly when the text changed |
| Permissions.ApplyPermissions | apply_permissions.js:86-114 | the loop's text and count are those of the run over the entries, with the corrected lookahead |

## Left out

- The daily-roster, unaccounted and live-class server endpoints are not part of this model. Their rows enter as input values.
- Page rendering is left out: HTML building, modals, alerts, event wiring and the row-removal handlers. The model keeps only what is shown (`View`, `RosterView`, the cells) as values.
- Every network request is a parameter: its answer is an `Option` or a flag. Responses are assumed to have the shapes the pages read.
- SQLite errors other than the constraint violations modelled are left out: the 500 replies and `NOT NULL` violations from non-string JSON fields.
- JSON fields that are not strings (numbers, objects) are left out. A missing field and a non-text field are both `None`.
- The `ON DELETE CASCADE` of `entry_logs` is left out. SQLite enforces it only with a foreign-key pragma, which the server never sets.
- The clock and the host's time zone are parameters. The live dashboard takes the local hour and minute; the other pages take epoch milliseconds.
- Day and month navigation is left out (`setDate`/`setMonth` on local dates). So is `formatDate` in the live dashboard.
- `localeCompare` on `class_date` is modelled as plain code-point order. This is exact for the ASCII `YYYY-MM-DD` texts the pages use.
- Lowercasing covers ASCII letters only. The verbs of the permission map are ASCII.
- `ParseIsoDate` accepts exactly the `YYYY-MM-DD` texts of real dates with four-digit years. Other texts that `new Date` would accept are left out, such as expanded years or other layouts.
- `toISOString` of an instant outside the ±8.64e15 ms range, which throws, is left out.
- ScheduleTransfer.MakeupWeekDay and ScheduleTransfer.MakeupWeekDayAsWritten require the date input's value to be empty or a real date. A browser date input produces only those.
- Log times are taken as epoch milliseconds. A `log_time` text is read by `new Date(...)`, and that parsing is left out.
- StudentInfo.DayString keys a day with the unpadded `String(year)`, as the code does. It agrees with `class_date` keys only for years 1000..9999 (StudentInfo.DayStringIsIsoDate).
- Permissions.RewrittenHandlerSkipped: proved for each handler the tool rewrites, not for a whole second run over the output. A whole-run proof would also need the verb, route and permission texts not to contain `app.`.
- The permission tool's replacement string is taken literally. None of the permissions holds a `$` pattern. The method name is placed in the regular expression unescaped; the model treats it as literal text, which holds for the letters of the map.
- The permission tool's backup copy, `y/N` prompt, console messages and file write are left out. A failed run means nothing is written.
- Pages that only forward form fields to endpoints are left out: the admin, role, user, slot, PC, bulk and backup pages. So are the login page, the check-in server, the admin-creation and schema scripts (cited only for constraints), and the end-to-end tests.

## Findings

| source | as written | input that shows it | evidently intended | confidence | as-written member | corrected member |
|---|---|---|---|---|---|---|
| public/schedule.js:28 | `Date.UTC(y, m - 1, d)` reads a year 0..99 as 1900..1999 | `0050-07-20`: the date is a Wednesday (3), but the slot query asks for Thursday (4), the weekday of 1950-07-20 | the weekday of the date typed in, whatever its year | not executed; low impact, since only years 0000-0099 are affected | ScheduleTransfer.MakeupWeekDayAsWritten, ScheduleTransfer.MakeupWeekDayTwoDigitYear | ScheduleTransfer.MakeupWeekDay, ScheduleTransfer.CivilWeekDayIsWeekday |
| apply_permissions.js:100 | the greedy `\s*` before `(?!checkPermission\()` gives back one white space character, and the lookahead then succeeds on that space | `app.get('/api/users', h)`: the first run gives `app.get('/api/users', checkPermission('view_users'), h)`, and a second run inserts the check again | a handler already followed by `checkPermission(` is skipped, so a second run changes nothing | not executed; follows from ECMAScript backtracking into `\s*` | Permissions.AsWrittenNotIdempotent, Permissions.UsersHandlerGuardedTwice | Permissions.RewrittenHandlerSkipped, Permissions.ApplyPermissions |
