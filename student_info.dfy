/**
 * The student information page: the next upcoming booking, the notes
 * history, and the month calendar with each day's bookings and attendance.
 */
module StudentInfo {
  import opened Wrappers
  import opened Text
  import opened Seqs
  import opened CivilDate
  import opened Status

  /** A booking as the student-info request returns it; `classDate` is a `YYYY-MM-DD` string. */
  datatype InfoSchedule = InfoSchedule(classDate: string, slotName: string, status: string, notes: Option<string>)

  // ----- renderNextSchedule -----

  /** `s.class_date >= today && s.status !== '欠席'`. */
  predicate UpcomingOn(today: string, s: InfoSchedule) {
    LessEq(today, s.classDate) && s.status != Absent
  }

  /** The `filter` of upcoming, non-absent bookings, in input order. */
  function Upcoming(schedules: seq<InfoSchedule>, today: string): (r: seq<InfoSchedule>)
    ensures |r| <= |schedules|
  {
    if schedules == [] then []
    else (if UpcomingOn(today, schedules[0]) then [schedules[0]] else []) + Upcoming(schedules[1..], today)
  }

  /**
   * The first element after a stable sort by `class_date`: the earliest
   * date, and among bookings on that date the first in input order.
   */
  function Earliest(s: seq<InfoSchedule>): (r: Option<InfoSchedule>)
    ensures r.None? <==> s == []
  {
    if s == [] then None
    else
      match Earliest(s[1..])
      case None => Some(s[0])
      case Some(y) => if Less(y.classDate, s[0].classDate) then Some(y) else Some(s[0])
  }

  /** The booking `renderNextSchedule` shows, for the instant `now`; `None` shows "no upcoming booking". */
  function NextSchedule(schedules: seq<InfoSchedule>, now: int): Option<InfoSchedule> {
    Earliest(Upcoming(schedules, UtcIsoDate(now)))
  }

  lemma {:induction false} UpcomingMembers(schedules: seq<InfoSchedule>, today: string, x: InfoSchedule)
    ensures x in Upcoming(schedules, today) <==> x in schedules && UpcomingOn(today, x)
  {
    if schedules != [] {
      UpcomingMembers(schedules[1..], today, x);
      assert schedules == [schedules[0]] + schedules[1..];
    }
  }

  /**
   * `Earliest` picks element `i`: no element has an earlier date, and every
   * element before it has a later one.
   */
  lemma {:induction false} EarliestIsFirstMinimum(s: seq<InfoSchedule>) returns (i: nat)
    requires s != []
    ensures i < |s| && Earliest(s) == Some(s[i])
    ensures forall j :: 0 <= j < |s| ==> LessEq(s[i].classDate, s[j].classDate)
    ensures forall j :: 0 <= j < i ==> Less(s[i].classDate, s[j].classDate)
  {
    var x := s[0];
    LessIrreflexive(x.classDate);
    if s[1..] == [] {
      i := 0;
    } else {
      var k := EarliestIsFirstMinimum(s[1..]);
      var y := s[1..][k];
      LessTrichotomy(y.classDate, x.classDate);
      if Less(y.classDate, x.classDate) {
        i := k + 1;
      } else {
        i := 0;
        forall j | 0 <= j < |s| ensures LessEq(x.classDate, s[j].classDate) {
          if j > 0 {
            assert s[j] == s[1..][j - 1];
            LessEqTransitive(x.classDate, y.classDate, s[j].classDate);
          }
        }
      }
    }
  }

  /**
   * The next booking is upcoming, not absent and one of the student's, no
   * upcoming booking is earlier, and there is none exactly when no booking
   * is upcoming.
   */
  lemma NextScheduleIsEarliestUpcoming(schedules: seq<InfoSchedule>, now: int)
    ensures var today := UtcIsoDate(now);
      && (NextSchedule(schedules, now).None? <==> forall x :: x in schedules ==> !UpcomingOn(today, x))
      && (NextSchedule(schedules, now).Some? ==>
            var n := NextSchedule(schedules, now).value;
            && n in schedules && UpcomingOn(today, n)
            && forall x :: x in schedules && UpcomingOn(today, x) ==> LessEq(n.classDate, x.classDate))
  {
    var today := UtcIsoDate(now);
    var u := Upcoming(schedules, today);
    forall x ensures x in u <==> x in schedules && UpcomingOn(today, x) {
      UpcomingMembers(schedules, today, x);
    }
    if u != [] {
      var i := EarliestIsFirstMinimum(u);
      forall x | x in schedules && UpcomingOn(today, x) ensures LessEq(u[i].classDate, x.classDate) {
        var j :| 0 <= j < |u| && u[j] == x;
      }
    }
  }

  // ----- renderNotes -----

  predicate HasNotes(s: InfoSchedule) {
    Truthy(s.notes)
  }

  /** The notes history, or `None` when no booking has notes and the panel is left as it was. */
  function NotesHistory(schedules: seq<InfoSchedule>): Option<seq<InfoSchedule>> {
    var n := Filter(schedules, HasNotes);
    if n == [] then None else Some(n)
  }

  /**
   * The history lists exactly the bookings with non-empty notes, in input
   * order; the panel is left alone exactly when there are none.
   */
  lemma NotesHistoryExact(schedules: seq<InfoSchedule>) returns (idx: seq<nat>)
    ensures NotesHistory(schedules).None? <==> forall x :: x in schedules ==> !HasNotes(x)
    ensures forall x :: x in Filter(schedules, HasNotes) <==> x in schedules && HasNotes(x)
    ensures |idx| == |Filter(schedules, HasNotes)|
    ensures forall t :: 0 <= t < |idx| ==> idx[t] < |schedules| && schedules[idx[t]] == Filter(schedules, HasNotes)[t]
    ensures forall t, u :: 0 <= t < u < |idx| ==> idx[t] < idx[u]
    ensures forall k :: 0 <= k < |schedules| && HasNotes(schedules[k]) ==> k in idx
  {
    var n := Filter(schedules, HasNotes);
    forall x | x in schedules && HasNotes(x) ensures x in n {
      FilterContains(schedules, HasNotes, x);
    }
    if n != [] {
      assert n[0] in n;
    }
    idx := FilterIndices(schedules, HasNotes);
  }

  // ----- renderCalendar: bookings by date -----

  /** The non-absent bookings on `date`, in input order. */
  function OnDate(schedules: seq<InfoSchedule>, date: string): (r: seq<InfoSchedule>)
    ensures |r| <= |schedules|
  {
    if schedules == [] then []
    else
      var x := schedules[|schedules| - 1];
      OnDate(schedules[..|schedules| - 1], date) + (if x.status != Absent && x.classDate == date then [x] else [])
  }

  /** The dates with at least one non-absent booking. */
  ghost function BookedDates(schedules: seq<InfoSchedule>): set<string> {
    set s | s in schedules && s.status != Absent :: s.classDate
  }

  lemma OnDateSnoc(schedules: seq<InfoSchedule>, x: InfoSchedule, date: string)
    ensures OnDate(schedules + [x], date) == OnDate(schedules, date) + (if x.status != Absent && x.classDate == date then [x] else [])
  {
    assert (schedules + [x])[..|schedules + [x]| - 1] == schedules;
  }

  /** A booking is listed under `date` iff it is one of the input, not absent, on that date. */
  lemma {:induction false} OnDateMembers(schedules: seq<InfoSchedule>, date: string, x: InfoSchedule)
    ensures x in OnDate(schedules, date) <==> x in schedules && x.status != Absent && x.classDate == date
  {
    if schedules != [] {
      var init := schedules[..|schedules| - 1];
      assert schedules == init + [schedules[|schedules| - 1]];
      OnDateMembers(init, date, x);
    }
  }

  /** A date's list is the `filter` of its non-absent bookings, so it keeps input order. */
  lemma {:induction false} OnDateIsFilter(schedules: seq<InfoSchedule>, date: string, p: InfoSchedule -> bool)
    requires forall x :: p(x) == (x.status != Absent && x.classDate == date)
    ensures OnDate(schedules, date) == Filter(schedules, p)
  {
    if schedules != [] {
      var init := schedules[..|schedules| - 1];
      assert schedules == init + [schedules[|schedules| - 1]];
      OnDateIsFilter(init, date, p);
      FilterSnoc(init, schedules[|schedules| - 1], p);
    }
  }

  /** A date has bookings listed exactly when it is a booked date. */
  lemma OnDateNonEmpty(schedules: seq<InfoSchedule>, date: string)
    ensures OnDate(schedules, date) != [] <==> date in BookedDates(schedules)
  {
    var r := OnDate(schedules, date);
    if r != [] {
      OnDateMembers(schedules, date, r[0]);
    }
    if date in BookedDates(schedules) {
      var s :| s in schedules && s.status != Absent && s.classDate == date;
      OnDateMembers(schedules, date, s);
    }
  }

  /** `byDate` holds, under each booked date of `schedules`, that date's non-absent bookings. */
  ghost predicate ByDate(byDate: map<string, seq<InfoSchedule>>, schedules: seq<InfoSchedule>) {
    && byDate.Keys == BookedDates(schedules)
    && forall d :: d in byDate ==> byDate[d] == OnDate(schedules, d)
  }

  /** One more booking is appended to its date's list, a new date starting empty; an absence is skipped. */
  lemma ByDateStep(byDate: map<string, seq<InfoSchedule>>, schedules: seq<InfoSchedule>, s: InfoSchedule)
    requires ByDate(byDate, schedules)
    ensures s.status == Absent ==> ByDate(byDate, schedules + [s])
    ensures s.status != Absent ==>
      ByDate(byDate[s.classDate := (if s.classDate in byDate then byDate[s.classDate] else []) + [s]], schedules + [s])
  {
    forall d ensures OnDate(schedules + [s], d) == OnDate(schedules, d) + (if s.status != Absent && s.classDate == d then [s] else []) {
      OnDateSnoc(schedules, s, d);
    }
    if s.status != Absent && s.classDate !in byDate {
      OnDateNonEmpty(schedules, s.classDate);
    }
    assert BookedDates(schedules + [s]) == BookedDates(schedules) + (if s.status != Absent then {s.classDate} else {});
  }

  /** The `schedulesByDate` map: each booked date holds its non-absent bookings. */
  method SchedulesByDate(schedules: seq<InfoSchedule>) returns (byDate: map<string, seq<InfoSchedule>>)
    ensures byDate.Keys == BookedDates(schedules)
    ensures forall d :: d in byDate ==> byDate[d] == OnDate(schedules, d)
  {
    byDate := map[];
    assert schedules[..0] == [];
    for i := 0 to |schedules|
      invariant ByDate(byDate, schedules[..i])
    {
      var s := schedules[i];
      assert schedules[..i + 1] == schedules[..i] + [s];
      ByDateStep(byDate, schedules[..i], s);
      if s.status != Absent {
        ghost var before := byDate;
        if s.classDate !in byDate {
          byDate := byDate[s.classDate := []];
        }
        byDate := byDate[s.classDate := byDate[s.classDate] + [s]];
        assert byDate == before[s.classDate := (if s.classDate in before then before[s.classDate] else []) + [s]];
      }
    }
    assert schedules[..|schedules|] == schedules;
  }

  // ----- renderCalendar: attendance by date -----

  /** The UTC date string of each log's time. */
  function LogDates(logTimes: seq<int>): (r: seq<string>)
    ensures |r| == |logTimes|
  {
    seq(|logTimes|, i requires 0 <= i < |logTimes| => UtcIsoDate(logTimes[i]))
  }

  /** `byDate` holds, for each date of `dates`, how often it occurs there. */
  ghost predicate Tally(byDate: map<string, nat>, dates: seq<string>) {
    && byDate.Keys == (set d | d in dates)
    && forall d :: d in byDate ==> byDate[d] == Count(dates, d) && byDate[d] > 0
  }

  lemma TallyStep(byDate: map<string, nat>, dates: seq<string>, x: string)
    requires Tally(byDate, dates)
    ensures Tally(byDate[x := (if x in byDate then byDate[x] else 0) + 1], dates + [x])
  {
    forall d ensures Count(dates + [x], d) == Count(dates, d) + (if x == d then 1 else 0) {
      CountSnoc(dates, x, d);
    }
    if x !in byDate {
      CountPositive(dates, x);
    }
    assert (set d | d in dates + [x]) == (set d | d in dates) + {x};
  }

  /** The counting loop of `attendanceByDate`: how many times each date occurs in `dates`. */
  method CountDates(dates: seq<string>) returns (byDate: map<string, nat>)
    ensures Tally(byDate, dates)
  {
    byDate := map[];
    assert dates[..0] == [];
    for i := 0 to |dates|
      invariant Tally(byDate, dates[..i])
    {
      var dateStr := dates[i];
      assert dates[..i + 1] == dates[..i] + [dateStr];
      TallyStep(byDate, dates[..i], dateStr);
      // a missing date starts from 0
      var count := if dateStr in byDate then byDate[dateStr] else 0;
      byDate := byDate[dateStr := count + 1];
    }
    assert dates[..|dates|] == dates;
  }

  /** The `attendanceByDate` object: the number of logs on each UTC date that has any. */
  method AttendanceByDate(logTimes: seq<int>) returns (byDate: map<string, nat>)
    ensures byDate.Keys == set d | d in LogDates(logTimes)
    ensures forall d :: d in byDate ==> byDate[d] == Count(LogDates(logTimes), d) && byDate[d] > 0
  {
    // the UTC date of each log: `new Date(log.log_time).toISOString().split('T')[0]`
    byDate := CountDates(LogDates(logTimes));
  }

  /** Summed over the distinct dates, the per-date counts account for every log once. */
  lemma AttendanceSum(logTimes: seq<int>, dates: seq<string>)
    requires forall i, j :: 0 <= i < j < |dates| ==> dates[i] != dates[j]
    requires forall d :: d in LogDates(logTimes) ==> d in dates
    ensures SumCounts(dates, LogDates(logTimes)) == |logTimes|
  {
    SumCountsTotal(dates, LogDates(logTimes));
  }

  // ----- renderCalendar: the grid -----

  datatype CellKind = Plain | Scheduled | Attended | Multiple

  /**
   * The class of a day cell: attendance decides first (`multiple` for more
   * than one log, `attended` for one); only a day without attendance shows
   * `scheduled`, when it has a non-absent booking.
   */
  function KindOf(attendance: nat, booked: bool): (k: CellKind)
    ensures attendance > 0 ==> (k == Multiple <==> attendance > 1) && (k == Attended <==> attendance == 1)
    ensures k == Scheduled <==> attendance == 0 && booked
    ensures k == Plain <==> attendance == 0 && !booked
  {
    if attendance > 0 then (if attendance > 1 then Multiple else Attended)
    else if booked then Scheduled
    else Plain
  }

  datatype Cell = Blank | Day(day: int, kind: CellKind, slotNames: seq<string>)

  /** `${year}-${month}-${day}`, the month and day padded to two digits. */
  function DayString(year: int, month0: nat, day: nat): string {
    IntString(year) + "-" + Fixed(month0 + 1, 2) + "-" + Fixed(day, 2)
  }

  /** For four-digit years a day's key is the `YYYY-MM-DD` of ISO 8601, the form of `class_date`. */
  lemma DayStringIsIsoDate(year: int, month0: nat, day: nat)
    requires 1000 <= year <= 9999 && Valid(Date(year, month0 + 1, day))
    ensures DayString(year, month0, day) == IsoDate(Date(year, month0 + 1, day))
  {
    assert Pow10(3) == 1000 && Pow10(4) == 10000 by {
      assert Pow10(1) == 10;
    }
    DecimalLength(year, 4);
    DecimalLengthLower(year, 4);
  }

  function SlotNames(ss: seq<InfoSchedule>): (names: seq<string>)
    ensures |names| == |ss| && forall i :: 0 <= i < |ss| ==> names[i] == ss[i].slotName
  {
    seq(|ss|, i requires 0 <= i < |ss| => ss[i].slotName)
  }

  /** The cell of day `day`: its number, its class, and the slot names of its non-absent bookings. */
  function DayCell(year: int, month0: nat, day: nat, schedules: seq<InfoSchedule>, logTimes: seq<int>): Cell {
    var key := DayString(year, month0, day);
    Day(day, KindOf(Count(LogDates(logTimes), key), OnDate(schedules, key) != []), SlotNames(OnDate(schedules, key)))
  }

  /** The cell drawn from the two maps is the cell of the day. */
  lemma DayCellFromMaps(year: int, month0: nat, day: nat, schedules: seq<InfoSchedule>, logTimes: seq<int>,
                        schedulesByDate: map<string, seq<InfoSchedule>>, attendanceByDate: map<string, nat>)
    requires schedulesByDate.Keys == BookedDates(schedules)
    requires forall d :: d in schedulesByDate ==> schedulesByDate[d] == OnDate(schedules, d)
    requires attendanceByDate.Keys == set d | d in LogDates(logTimes)
    requires forall d :: d in attendanceByDate ==> attendanceByDate[d] == Count(LogDates(logTimes), d)
    ensures var key := DayString(year, month0, day);
      var attendanceCount := if key in attendanceByDate then attendanceByDate[key] else 0;
      var booked := key in schedulesByDate;
      Day(day, KindOf(attendanceCount, booked), if booked then SlotNames(schedulesByDate[key]) else [])
        == DayCell(year, month0, day, schedules, logTimes)
  {
    var key := DayString(year, month0, day);
    OnDateNonEmpty(schedules, key);
    if key !in attendanceByDate {
      CountPositive(LogDates(logTimes), key);
    }
  }

  /** `new Date(year, month0, 1).getDay()` and `new Date(year, month0 + 1, 0).getDate()`. */
  lemma MonthLayout(year: int, month0: nat)
    requires month0 <= 11
    ensures WeekDay(MakeDay(JsYear(year), month0, 1)) == WeekDay(DayNumber(JsYear(year), month0 + 1, 1))
    ensures CivilOf(MakeDay(JsYear(year), month0 + 1, 0)).day == DaysInMonth(JsYear(year), month0 + 1)
  {
    MakeDayInYear(JsYear(year), month0, 1);
    DayZeroOfNextMonth(JsYear(year), month0);
  }

  /** The first `n` day cells of the month. */
  function DayCells(year: int, month0: nat, n: nat, schedules: seq<InfoSchedule>, logTimes: seq<int>): (cells: seq<Cell>)
    ensures |cells| == n
  {
    seq(n, k requires 0 <= k < n => DayCell(year, month0, k + 1, schedules, logTimes))
  }

  lemma DayCellsSnoc(year: int, month0: nat, n: nat, schedules: seq<InfoSchedule>, logTimes: seq<int>)
    ensures DayCells(year, month0, n + 1, schedules, logTimes)
      == DayCells(year, month0, n, schedules, logTimes) + [DayCell(year, month0, n + 1, schedules, logTimes)]
  {
    var a := DayCells(year, month0, n + 1, schedules, logTimes);
    var b := DayCells(year, month0, n, schedules, logTimes) + [DayCell(year, month0, n + 1, schedules, logTimes)];
    forall k | 0 <= k < |a| ensures a[k] == b[k] {
      DayCellsAt(year, month0, n + 1, schedules, logTimes, k);
      if k < n {
        DayCellsAt(year, month0, n, schedules, logTimes, k);
      }
    }
  }

  lemma DayCellsAt(year: int, month0: nat, n: nat, schedules: seq<InfoSchedule>, logTimes: seq<int>, k: int)
    requires 0 <= k < n
    ensures DayCells(year, month0, n, schedules, logTimes)[k] == DayCell(year, month0, k + 1, schedules, logTimes)
  {
  }

  /** `firstDay` blanks followed by the first `n` day cells. */
  function Grid(firstDay: nat, n: nat, year: int, month0: nat, schedules: seq<InfoSchedule>, logTimes: seq<int>): seq<Cell> {
    seq(firstDay, _ => Blank) + DayCells(year, month0, n, schedules, logTimes)
  }

  lemma GridSnoc(firstDay: nat, n: nat, year: int, month0: nat, schedules: seq<InfoSchedule>, logTimes: seq<int>, cells: seq<Cell>, c: Cell)
    requires cells == Grid(firstDay, n, year, month0, schedules, logTimes)
    requires c == DayCell(year, month0, n + 1, schedules, logTimes)
    ensures cells + [c] == Grid(firstDay, n + 1, year, month0, schedules, logTimes)
  {
    DayCellsSnoc(year, month0, n, schedules, logTimes);
  }

  lemma GridLayout(firstDay: nat, n: nat, year: int, month0: nat, schedules: seq<InfoSchedule>, logTimes: seq<int>, i: int)
    ensures |Grid(firstDay, n, year, month0, schedules, logTimes)| == firstDay + n
    ensures 0 <= i < firstDay ==> Grid(firstDay, n, year, month0, schedules, logTimes)[i] == Blank
    ensures firstDay <= i < firstDay + n ==>
      && Grid(firstDay, n, year, month0, schedules, logTimes)[i].Day?
      && Grid(firstDay, n, year, month0, schedules, logTimes)[i].day == i - firstDay + 1
      && Grid(firstDay, n, year, month0, schedules, logTimes)[i] == DayCell(year, month0, i - firstDay + 1, schedules, logTimes)
  {
    if firstDay <= i < firstDay + n {
      assert Grid(firstDay, n, year, month0, schedules, logTimes)[i] == DayCells(year, month0, n, schedules, logTimes)[i - firstDay];
    }
  }

  /** The weekday column (0 for Sunday) of the 1st of the month. */
  function FirstWeekDay(year: int, month0: nat): (w: nat)
    requires month0 <= 11
    ensures w <= 6
  {
    WeekDay(DayNumber(JsYear(year), month0 + 1, 1))
  }

  /** The number of days in the month. */
  function MonthLength(year: int, month0: nat): (n: nat)
    requires month0 <= 11
    ensures 28 <= n <= 31
  {
    DaysInMonth(JsYear(year), month0 + 1)
  }

  /** The month grid: a blank for each weekday before the 1st, then every day of the month. */
  function Calendar(year: int, month0: nat, schedules: seq<InfoSchedule>, logTimes: seq<int>): seq<Cell>
    requires month0 <= 11
  {
    Grid(FirstWeekDay(year, month0), MonthLength(year, month0), year, month0, schedules, logTimes)
  }

  /**
   * The grid starts on the weekday column of the 1st and holds the month's
   * days in order, numbered 1 to the Gregorian length of the month, each
   * cell drawn from that day's bookings and logs; `f` and `n` name the
   * weekday of the 1st and the length of the month.
   */
  lemma CalendarLayout(year: int, month0: nat, schedules: seq<InfoSchedule>, logTimes: seq<int>, f: nat, n: nat, i: int)
    requires month0 <= 11 && f == FirstWeekDay(year, month0) && n == MonthLength(year, month0)
    ensures |Calendar(year, month0, schedules, logTimes)| == f + n
    ensures 0 <= i < f ==> Calendar(year, month0, schedules, logTimes)[i] == Blank
    ensures f <= i < f + n ==> Calendar(year, month0, schedules, logTimes)[i] == DayCell(year, month0, i - f + 1, schedules, logTimes)
  {
    assert Calendar(year, month0, schedules, logTimes) == Grid(f, n, year, month0, schedules, logTimes);
    GridLayout(f, n, year, month0, schedules, logTimes, i);
  }

  /** `renderCalendar` for the month `month0` (0 for January) of `year`. */
  method RenderCalendar(year: int, month0: nat, schedules: seq<InfoSchedule>, logTimes: seq<int>)
    returns (cells: seq<Cell>)
    requires month0 <= 11
    ensures cells == Calendar(year, month0, schedules, logTimes)
  {
    MonthLayout(year, month0);
    var firstDay := WeekDay(MakeDay(JsYear(year), month0, 1));
    var daysInMonth := CivilOf(MakeDay(JsYear(year), month0 + 1, 0)).day;
    assert firstDay == FirstWeekDay(year, month0) && daysInMonth == MonthLength(year, month0);
    var schedulesByDate := SchedulesByDate(schedules);
    var attendanceByDate := AttendanceByDate(logTimes);
    cells := [];
    for i := 0 to firstDay
      invariant cells == seq(i, _ => Blank)
    {
      cells := cells + [Blank];
    }
    assert cells == Grid(firstDay, 0, year, month0, schedules, logTimes);
    for day := 1 to daysInMonth + 1
      invariant cells == Grid(firstDay, day - 1, year, month0, schedules, logTimes)
    {
      var dateStr := DayString(year, month0, day);
      var attendanceCount := if dateStr in attendanceByDate then attendanceByDate[dateStr] else 0;
      var booked := dateStr in schedulesByDate;
      var names := if booked then SlotNames(schedulesByDate[dateStr]) else [];
      DayCellFromMaps(year, month0, day, schedules, logTimes, schedulesByDate, attendanceByDate);
      var cell := Day(day, KindOf(attendanceCount, booked), names);
      GridSnoc(firstDay, day - 1, year, month0, schedules, logTimes, cells, cell);
      cells := cells + [cell];
    }
  }
}
