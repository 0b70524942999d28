/**
 * The makeup-transfer page: the weekday of the chosen makeup date, the
 * de-duplicated lists of cancellable slots and of the makeup slot's
 * roster, and the transfer itself, which marks the original booking
 * absent and then books the makeup lesson.
 */
module ScheduleTransfer {
  import opened Wrappers
  import opened Text
  import opened Seqs
  import opened CivilDate
  import opened Status

  // ----- the weekday of the makeup date (updateMakeupSlots) -----

  /**
   * The weekday as written: `new Date(Date.UTC(y, m - 1, d)).getUTCDay()`,
   * where `Date.UTC` reads a year 0..99 as 1900..1999.
   */
  function UtcDayAsWritten(d: Date): (w: int)
    ensures 0 <= w < 7
  {
    WeekDay(MakeDay(JsYear(d.year), d.month - 1, d.day))
  }

  /** The weekday of the calendar date itself, 0 for Sunday, whatever the host's time zone. */
  function CivilWeekDay(d: Date): (w: int)
    requires 1 <= d.month <= 12
    ensures 0 <= w < 7
  {
    WeekDay(DayNumber(d.year, d.month, d.day))
  }

  /** The weekday of a calendar day advances by one each day, from Thursday 1970-01-01. */
  lemma CivilWeekDayIsWeekday(d: Date)
    requires Valid(d)
    ensures CivilWeekDay(Date(1970, 1, 1)) == 4
    ensures CivilWeekDay(CivilOf(DayNumber(d.year, d.month, d.day) + 1))
      == (CivilWeekDay(d) + 1) % 7
  {
    var n := DayNumber(d.year, d.month, d.day);
    CivilOfValid(n + 1);
    WeekDaySuccessor(n);
  }

  /** For years outside 0..99 the expression as written gives the weekday of the date. */
  lemma UtcDayAgrees(d: Date)
    requires Valid(d) && !(0 <= d.year <= 99)
    ensures UtcDayAsWritten(d) == CivilWeekDay(d)
  {
    assert (d.month - 1) / 12 == 0 && (d.month - 1) % 12 == d.month - 1;
  }

  /** 2025-07-20 is a Sunday. */
  lemma UtcDayExample()
    ensures UtcDayAsWritten(Date(2025, 7, 20)) == 0
  {
    UtcDayAgrees(Date(2025, 7, 20));
    assert DayNumber(2025, 7, 20) == 20289;
  }

  /** In year 50 the expression as written gives the weekday of 1950 instead: 0050-07-20 was a Wednesday, 1950-07-20 a Thursday. */
  lemma UtcDayTwoDigitYear()
    ensures CivilWeekDay(Date(50, 7, 20)) == 3
    ensures UtcDayAsWritten(Date(50, 7, 20)) == 4
  {
    assert DayNumber(50, 7, 20) == -701065;
    assert MakeDay(1950, 6, 20) == DayNumber(1950, 7, 20) == -7105;
  }

  /**
   * The `dayOfWeek` sent with the slot query for the date input's value:
   * none for an empty input, where the handler returns early; otherwise the
   * weekday of the date, computed without the two-digit-year rule.
   */
  function MakeupWeekDay(value: string): (w: Option<int>)
    requires value == "" || ParseIsoDate(value).Some?
    ensures w.None? <==> value == ""
    ensures w.Some? ==> 0 <= w.value < 7 && w.value == CivilWeekDay(ParseIsoDate(value).value)
  {
    if value == "" then None else Some(CivilWeekDay(ParseIsoDate(value).value))
  }

  /** The handler as written, with `Date.UTC`'s reading of two-digit years. */
  function MakeupWeekDayAsWritten(value: string): (w: Option<int>)
    requires value == "" || ParseIsoDate(value).Some?
    ensures w.None? <==> value == ""
  {
    if value == "" then None else Some(UtcDayAsWritten(ParseIsoDate(value).value))
  }

  /** The two agree on every date input value except the years 0000..0099. */
  lemma MakeupWeekDayAgrees(value: string)
    requires value == "" || ParseIsoDate(value).Some?
    requires value != "" ==> ParseIsoDate(value).value.year >= 100
    ensures MakeupWeekDay(value) == MakeupWeekDayAsWritten(value)
  {
    if value != "" {
      UtcDayAgrees(ParseIsoDate(value).value);
    }
  }

  /** On the input "0050-07-20" the handler as written asks for Thursday's slots, not Wednesday's. */
  lemma MakeupWeekDayTwoDigitYear()
    ensures ParseIsoDate("0050-07-20") == Some(Date(50, 7, 20))
    ensures MakeupWeekDay("0050-07-20") == Some(3)
    ensures MakeupWeekDayAsWritten("0050-07-20") == Some(4)
  {
    IsoDateRoundTrip(Date(50, 7, 20));
    assert Fixed(50, 4) == "0050" by {
      assert Decimal(50) == "50";
    }
    assert Fixed(7, 2) == "07" && Fixed(20, 2) == "20" by {
      assert Decimal(20) == "20";
    }
    assert IsoDate(Date(50, 7, 20)) == "0050-07-20";
    UtcDayTwoDigitYear();
  }

  // ----- the de-duplicated lists -----

  /** A schedule row as the `/api/schedules` queries return it. */
  datatype ScheduleRow = ScheduleRow(
    scheduleId: int, userId: string, userName: string, slotId: int, slotName: string, status: string)

  function SlotKey(s: ScheduleRow): int {
    s.slotId
  }

  function UserKey(s: ScheduleRow): string {
    s.userId
  }

  predicate NotAbsent(s: ScheduleRow) {
    s.status != Absent
  }

  /**
   * `populateCancelSlots`' loop: one entry per slot, the first schedule
   * found for it, in input order.
   */
  method UniqueBySlot(schedules: seq<ScheduleRow>) returns (unique: seq<ScheduleRow>)
    ensures unique == KeepFirst(schedules, SlotKey)
  {
    unique := [];
    var seenSlotIds: set<int> := {};
    for i := 0 to |schedules|
      invariant unique == KeepFirst(schedules[..i], SlotKey)
      invariant seenSlotIds == KeysOf(schedules[..i], SlotKey)
    {
      var s := schedules[i];
      KeepFirstStep(schedules, i, SlotKey, unique, seenSlotIds);
      if s.slotId !in seenSlotIds {
        unique := unique + [s];
        seenSlotIds := seenSlotIds + {s.slotId};
      }
    }
    assert schedules[..|schedules|] == schedules;
  }

  /**
   * The cancel-slot list has pairwise distinct slots, every slot of the
   * input is in it, and entry `t` is the first schedule of its slot, the
   * input's entry `idx[t]`, in input order.
   */
  lemma CancelSlotsShape(schedules: seq<ScheduleRow>) returns (idx: seq<nat>)
    ensures var u := KeepFirst(schedules, SlotKey);
      && (forall i, j :: 0 <= i < j < |u| ==> u[i].slotId != u[j].slotId)
      && (forall s :: s in schedules ==> exists t :: 0 <= t < |u| && u[t].slotId == s.slotId)
      && |idx| == |u|
      && (forall t :: 0 <= t < |idx| ==> idx[t] < |schedules| && schedules[idx[t]] == u[t] && IsFirst(schedules, SlotKey, idx[t]))
      && (forall t, v :: 0 <= t < v < |idx| ==> idx[t] < idx[v])
  {
    var u := KeepFirst(schedules, SlotKey);
    KeepFirstDistinct(schedules, SlotKey);
    KeepFirstKeys(schedules, SlotKey);
    idx := KeepFirstIndices(schedules, SlotKey);
    forall s | s in schedules ensures exists t :: 0 <= t < |u| && u[t].slotId == s.slotId {
      var i :| 0 <= i < |schedules| && schedules[i] == s;
      assert SlotKey(schedules[i]) in KeysOf(schedules, SlotKey);
      var t :| 0 <= t < |u| && SlotKey(u[t]) == SlotKey(s);
    }
  }

  /** `updateRosterDisplay`'s filter and loop: the non-absent schedules, first per student. */
  method UniqueRoster(schedules: seq<ScheduleRow>) returns (unique: seq<ScheduleRow>)
    ensures unique == KeepFirst(Filter(schedules, NotAbsent), UserKey)
  {
    var roster := Filter(schedules, NotAbsent);
    unique := [];
    var seenUserIds: set<string> := {};
    for i := 0 to |roster|
      invariant unique == KeepFirst(roster[..i], UserKey)
      invariant seenUserIds == KeysOf(roster[..i], UserKey)
    {
      var item := roster[i];
      KeepFirstStep(roster, i, UserKey, unique, seenUserIds);
      if item.userId !in seenUserIds {
        unique := unique + [item];
        seenUserIds := seenUserIds + {item.userId};
      }
    }
    assert roster[..|roster|] == roster;
  }

  /**
   * The roster holds no absent booking, lists each student at most once,
   * and lists every student with a non-absent booking.
   */
  lemma RosterShape(schedules: seq<ScheduleRow>)
    ensures var u := KeepFirst(Filter(schedules, NotAbsent), UserKey);
      && (forall s :: s in u ==> s in schedules && s.status != Absent)
      && (forall i, j :: 0 <= i < j < |u| ==> u[i].userId != u[j].userId)
      && (forall s :: s in schedules && s.status != Absent ==> exists t :: 0 <= t < |u| && u[t].userId == s.userId)
  {
    var roster := Filter(schedules, NotAbsent);
    var u := KeepFirst(roster, UserKey);
    KeepFirstDistinct(roster, UserKey);
    RosterKept(schedules, roster, u);
    RosterCovers(schedules, roster, u);
  }

  lemma RosterKept(schedules: seq<ScheduleRow>, roster: seq<ScheduleRow>, u: seq<ScheduleRow>)
    requires roster == Filter(schedules, NotAbsent) && u == KeepFirst(roster, UserKey)
    ensures forall s :: s in u ==> s in schedules && s.status != Absent
  {
    var idx := KeepFirstIndices(roster, UserKey);
    forall s | s in u ensures s in schedules && s.status != Absent {
      var t :| 0 <= t < |u| && u[t] == s;
      assert roster[idx[t]] == s;
    }
  }

  lemma RosterCovers(schedules: seq<ScheduleRow>, roster: seq<ScheduleRow>, u: seq<ScheduleRow>)
    requires roster == Filter(schedules, NotAbsent) && u == KeepFirst(roster, UserKey)
    ensures forall s :: s in schedules && s.status != Absent ==> exists t :: 0 <= t < |u| && u[t].userId == s.userId
  {
    KeepFirstKeys(roster, UserKey);
    forall s | s in schedules && s.status != Absent ensures exists t :: 0 <= t < |u| && u[t].userId == s.userId {
      FilterContains(schedules, NotAbsent, s);
      var i :| 0 <= i < |roster| && roster[i] == s;
      assert UserKey(roster[i]) in KeysOf(roster, UserKey);
      var t :| 0 <= t < |u| && UserKey(u[t]) == UserKey(s);
    }
  }

  /** The roster panel. */
  datatype RosterView = Hidden | Shown(roster: seq<ScheduleRow>)

  /**
   * `updateRosterDisplay`: without a makeup date or slot the panel is hidden
   * and nothing is fetched. Otherwise the slot's schedules are fetched:
   * `None` when the request or `response.json()` fails or the reply is not
   * an array, so that `.filter` throws; the `catch` then leaves the panel
   * as it was, `previous`. A list that arrives is shown de-duplicated.
   */
  method UpdateRosterDisplay(date: string, slotId: string, previous: RosterView, fetched: Option<seq<ScheduleRow>>)
    returns (view: RosterView)
    ensures date == "" || slotId == "" ==> view == Hidden
    ensures date != "" && slotId != "" && fetched.None? ==> view == previous
    ensures date != "" && slotId != "" && fetched.Some? ==> view == Shown(KeepFirst(Filter(fetched.value, NotAbsent), UserKey))
  {
    if date == "" || slotId == "" {
      return Hidden;
    }
    if fetched.None? {
      return previous;
    }
    var unique := UniqueRoster(fetched.value);
    view := Shown(unique);
  }

  /** The student picked from the search results. */
  datatype Student = Student(id: string, name: string)

  /**
   * `populateCancelSlots`: without a date or a student nothing is fetched
   * and the list of slots stays as it was, `previous`. So it does when the
   * fetch fails or its reply is not an array (`None`), since the `catch`
   * runs before the list is touched. Otherwise the list is the
   * de-duplicated fetched schedules.
   */
  method PopulateCancelSlots(date: string, student: Option<Student>, previous: seq<ScheduleRow>, fetched: Option<seq<ScheduleRow>>)
    returns (slots: seq<ScheduleRow>)
    ensures date == "" || student.None? || fetched.None? ==> slots == previous
    ensures date != "" && student.Some? && fetched.Some? ==> slots == KeepFirst(fetched.value, SlotKey)
  {
    if date == "" || student.None? || fetched.None? {
      return previous;
    }
    slots := UniqueBySlot(fetched.value);
  }

  // ----- registerTransfer -----

  /** A row of the schedules table. */
  datatype Schedule = Schedule(userId: string, classDate: string, slotId: nat, status: string, assignedPcId: Option<string>)

  /** How `registerTransfer` ends: each rejection alert, each failed request, or success. */
  datatype Outcome =
    | NoStudent | NoOriginal | NoMakeup
    | CancelFailed | UserFetchFailed | CreateFailed
    | Transferred

  /** The makeup booking: the student, the makeup date and slot, status `'振替'`, the student's default PC or null. */
  function MakeupBooking(student: Student, date: string, slotId: nat, defaultPcId: Option<string>): (s: Schedule)
    ensures s.status == Makeup && s.userId == student.id && s.classDate == date && s.slotId == slotId
    ensures s.assignedPcId.Some? <==> Truthy(defaultPcId)
    ensures s.assignedPcId.Some? ==> s.assignedPcId == defaultPcId
  {
    Schedule(student.id, date, slotId, Makeup, if Truthy(defaultPcId) then defaultPcId else None)
  }

  /** The table after the status `PUT`: the booking `id`, if the table holds it, is absent. */
  function MarkedAbsent(rows: map<nat, Schedule>, id: nat): (r: map<nat, Schedule>)
    ensures r.Keys == rows.Keys
    ensures id in rows ==> r[id] == rows[id].(status := Absent)
    ensures forall k :: k in rows && k != id ==> r[k] == rows[k]
  {
    if id in rows then rows[id := rows[id].(status := Absent)] else rows
  }

  /** The schedules table the page's requests act on. */
  class ScheduleTable {
    var rows: map<nat, Schedule>
    var nextId: nat

    ghost predicate Valid()
      reads this
    {
      forall k :: k in rows ==> k < nextId
    }

    constructor()
      ensures rows == map[] && nextId == 1 && Valid()
    {
      rows := map[];
      nextId := 1;
    }

    /**
     * `registerTransfer`. The select and input values come in as
     * `originalId`, `makeupDate` and `makeupSlotId` (an empty select is
     * `None`); the three requests' answers as `cancelOk`, `user` (the
     * student's record, `None` when the request fails) and `createOk`.
     */
    method Transfer(student: Option<Student>, originalId: Option<nat>, makeupDate: string, makeupSlotId: Option<nat>,
                    cancelOk: bool, user: Option<Option<string>>, createOk: bool)
      returns (outcome: Outcome)
      requires Valid()
      modifies this
      ensures Valid()
      ensures student.None? ==> outcome == NoStudent
      ensures student.Some? && originalId.None? ==> outcome == NoOriginal
      ensures student.Some? && originalId.Some? && (makeupDate == "" || makeupSlotId.None?) ==> outcome == NoMakeup
      ensures outcome in {NoStudent, NoOriginal, NoMakeup, CancelFailed} ==> rows == old(rows) && nextId == old(nextId)
      ensures student.Some? && originalId.Some? && makeupDate != "" && makeupSlotId.Some? ==>
        if !cancelOk then outcome == CancelFailed
        else if user.None? then
          outcome == UserFetchFailed && rows == MarkedAbsent(old(rows), originalId.value) && nextId == old(nextId)
        else if !createOk then
          outcome == CreateFailed && rows == MarkedAbsent(old(rows), originalId.value) && nextId == old(nextId)
        else
          && outcome == Transferred
          && rows == MarkedAbsent(old(rows), originalId.value)[old(nextId) := MakeupBooking(student.value, makeupDate, makeupSlotId.value, user.value)]
          && nextId == old(nextId) + 1
    {
      if student.None? {
        return NoStudent;
      }
      if originalId.None? {
        return NoOriginal;
      }
      if makeupDate == "" || makeupSlotId.None? {
        return NoMakeup;
      }
      // 1. the original booking becomes absent
      if !cancelOk {
        return CancelFailed;
      }
      rows := MarkedAbsent(rows, originalId.value);
      // 2. the student's default PC
      if user.None? {
        return UserFetchFailed;
      }
      var assignedPcId := user.value;
      // 3. the makeup booking
      if !createOk {
        return CreateFailed;
      }
      rows := rows[nextId := MakeupBooking(student.value, makeupDate, makeupSlotId.value, assignedPcId)];
      nextId := nextId + 1;
      outcome := Transferred;
    }
  }

  /**
   * A transfer that fails after the cancel step leaves the original booking
   * absent and books nothing: there is no rollback.
   */
  lemma NoRollback(rows: map<nat, Schedule>, id: nat)
    requires id in rows
    ensures MarkedAbsent(rows, id)[id].status == Absent
    ensures MarkedAbsent(rows, id) != rows <==> rows[id].status != Absent
  {
    if rows[id].status != Absent {
      assert MarkedAbsent(rows, id)[id] != rows[id];
    }
  }
}
