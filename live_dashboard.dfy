/**
 * The live dashboard's day view: folding the day's roster rows into one
 * group per class slot, choosing the class to show, splitting its list into
 * attendees and absentees, and the prev/next class navigation.
 */
module LiveDashboard {
  import opened Wrappers
  import opened Text
  import opened Seqs
  import opened Status

  /** One row of the day's roster: a slot, and possibly a student booked into it. */
  datatype Row = Row(
    slotId: int, slotName: string, startTime: string, endTime: string,
    userId: Option<string>, scheduleId: int, status: string, isPresent: bool)

  /** One class slot of the day with the students booked into it. */
  datatype SlotGroup = SlotGroup(
    slotId: int, slotName: string, startTime: string, endTime: string, schedules: seq<Row>)

  /** `row.user_id` is truthy: the row books a student rather than only naming a slot. */
  predicate HasUser(r: Row) {
    Truthy(r.userId)
  }

  function SlotOf(r: Row): int {
    r.slotId
  }

  // ----- grouping (loadDay) -----

  /** The rows of slot `k` that book a student, in input order. */
  function UsersOfSlot(rows: seq<Row>, k: int): (r: seq<Row>)
    ensures |r| <= |rows|
  {
    if rows == [] then []
    else
      var x := rows[|rows| - 1];
      UsersOfSlot(rows[..|rows| - 1], k) + (if x.slotId == k && HasUser(x) then [x] else [])
  }

  /** The group the first row `first` of its slot opens, holding all the slot's students. */
  function GroupFor(rows: seq<Row>, first: Row): SlotGroup {
    SlotGroup(first.slotId, first.slotName, first.startTime, first.endTime, UsersOfSlot(rows, first.slotId))
  }

  /** The day's classes: one group per slot, in order of the slot's first row. */
  function Groups(rows: seq<Row>): seq<SlotGroup> {
    var firsts := KeepFirst(rows, SlotOf);
    seq(|firsts|, j requires 0 <= j < |firsts| => GroupFor(rows, firsts[j]))
  }

  lemma UsersOfSlotSnoc(rows: seq<Row>, x: Row, k: int)
    ensures UsersOfSlot(rows + [x], k) == UsersOfSlot(rows, k) + (if x.slotId == k && HasUser(x) then [x] else [])
  {
    assert (rows + [x])[..|rows + [x]| - 1] == rows;
  }

  lemma {:induction false} UsersOfSlotUnseen(rows: seq<Row>, k: int)
    requires k !in KeysOf(rows, SlotOf)
    ensures UsersOfSlot(rows, k) == []
  {
    if rows != [] {
      var init := rows[..|rows| - 1];
      assert rows == init + [rows[|rows| - 1]];
      KeysOfSnoc(init, rows[|rows| - 1], SlotOf);
      UsersOfSlotUnseen(init, k);
    }
  }

  /** A slot's students are exactly the rows of that slot with a student, in input order. */
  lemma {:induction false} UsersOfSlotIsFilter(rows: seq<Row>, k: int, p: Row -> bool)
    requires forall x :: p(x) == (x.slotId == k && HasUser(x))
    ensures UsersOfSlot(rows, k) == Filter(rows, p)
  {
    if rows != [] {
      var init := rows[..|rows| - 1];
      assert rows == init + [rows[|rows| - 1]];
      UsersOfSlotIsFilter(init, k, p);
      FilterSnoc(init, rows[|rows| - 1], p);
    }
  }

  /** A row is listed under slot `k` iff it is a row of the input, of slot `k`, with a student. */
  lemma {:induction false} UsersOfSlotMembers(rows: seq<Row>, k: int, x: Row)
    ensures x in UsersOfSlot(rows, k) <==> x in rows && x.slotId == k && HasUser(x)
  {
    if rows != [] {
      var init := rows[..|rows| - 1];
      assert rows == init + [rows[|rows| - 1]];
      UsersOfSlotMembers(init, k, x);
    }
  }

  /** What the loop over the first `|done|` rows has built in `slotsMap` and its insertion order. */
  ghost predicate Built(done: seq<Row>, slots: map<int, SlotGroup>, order: seq<int>) {
    var firsts := KeepFirst(done, SlotOf);
    && slots.Keys == KeysOf(done, SlotOf)
    && |order| == |firsts|
    && forall j :: 0 <= j < |order| ==>
         order[j] == firsts[j].slotId && order[j] in slots && slots[order[j]] == GroupFor(done, firsts[j])
  }

  /** The first row of a slot not seen yet opens its group, holding the row when it books a student. */
  lemma BuiltNewSlot(done: seq<Row>, slots: map<int, SlotGroup>, order: seq<int>, row: Row)
    requires Built(done, slots, order) && row.slotId !in slots
    ensures Built(done + [row],
      slots[row.slotId := SlotGroup(row.slotId, row.slotName, row.startTime, row.endTime, if HasUser(row) then [row] else [])],
      order + [row.slotId])
  {
    var k := row.slotId;
    var done' := done + [row];
    var slots' := slots[k := SlotGroup(row.slotId, row.slotName, row.startTime, row.endTime, if HasUser(row) then [row] else [])];
    var order' := order + [k];
    KeysOfSnoc(done, row, SlotOf);
    KeepFirstSnoc(done, row, SlotOf);
    var firsts := KeepFirst(done, SlotOf);
    var firsts' := KeepFirst(done', SlotOf);
    assert firsts' == firsts + [row];
    UsersOfSlotUnseen(done, k);
    UsersOfSlotSnoc(done, row, k);
    forall j | 0 <= j < |order'|
      ensures order'[j] == firsts'[j].slotId && order'[j] in slots' && slots'[order'[j]] == GroupFor(done', firsts'[j])
    {
      if j < |order| {
        assert order[j] in slots && order[j] != k;
        UsersOfSlotSnoc(done, row, order[j]);
      }
    }
  }

  /** A later row of a slot already seen joins that slot's group when it books a student. */
  lemma BuiltOldSlot(done: seq<Row>, slots: map<int, SlotGroup>, order: seq<int>, row: Row)
    requires Built(done, slots, order) && row.slotId in slots
    ensures var g := slots[row.slotId];
      Built(done + [row], if HasUser(row) then slots[row.slotId := g.(schedules := g.schedules + [row])] else slots, order)
  {
    var k := row.slotId;
    var g := slots[k];
    var done' := done + [row];
    var slots' := if HasUser(row) then slots[k := g.(schedules := g.schedules + [row])] else slots;
    KeysOfSnoc(done, row, SlotOf);
    KeepFirstSnoc(done, row, SlotOf);
    var firsts := KeepFirst(done, SlotOf);
    assert KeepFirst(done', SlotOf) == firsts;
    forall j | 0 <= j < |order|
      ensures order[j] == firsts[j].slotId && order[j] in slots' && slots'[order[j]] == GroupFor(done', firsts[j])
    {
      UsersOfSlotSnoc(done, row, order[j]);
    }
  }

  /**
   * `loadDay`'s fold of the rows into `slotsMap` and `Array.from(slotsMap.values())`:
   * the map's insertion order is kept in `order`.
   */
  method GroupRows(rows: seq<Row>) returns (classes: seq<SlotGroup>)
    ensures classes == Groups(rows)
  {
    var slots: map<int, SlotGroup> := map[];
    var order: seq<int> := [];
    for i := 0 to |rows|
      invariant Built(rows[..i], slots, order)
    {
      var row := rows[i];
      ghost var slots0, order0 := slots, order;
      if row.slotId !in slots {
        slots := slots[row.slotId := SlotGroup(row.slotId, row.slotName, row.startTime, row.endTime, [])];
        order := order + [row.slotId];
      }
      if HasUser(row) {
        var g := slots[row.slotId];
        slots := slots[row.slotId := g.(schedules := g.schedules + [row])];
      }
      if row.slotId !in slots0 {
        BuiltNewSlot(rows[..i], slots0, order0, row);
      } else {
        BuiltOldSlot(rows[..i], slots0, order0, row);
      }
      assert rows[..i + 1] == rows[..i] + [row];
    }
    assert rows[..|rows|] == rows;
    classes := seq(|order|, j requires 0 <= j < |order| => slots[order[j]]);
  }

  /**
   * One group per distinct slot, in order of first appearance: the groups
   * have pairwise distinct slots, every slot of the input has a group, and
   * group `t` takes its name and times from the first row of its slot,
   * which is row `idx[t]`, the `idx` increasing.
   */
  lemma GroupsOnePerSlot(rows: seq<Row>) returns (idx: seq<nat>)
    ensures |idx| == |Groups(rows)|
    ensures forall i, j :: 0 <= i < j < |Groups(rows)| ==> Groups(rows)[i].slotId != Groups(rows)[j].slotId
    ensures forall r :: r in rows ==> exists t :: 0 <= t < |Groups(rows)| && Groups(rows)[t].slotId == r.slotId
    ensures forall t, u :: 0 <= t < u < |idx| ==> idx[t] < idx[u]
    ensures forall t :: 0 <= t < |idx| ==> (idx[t] < |rows| && IsFirst(rows, SlotOf, idx[t])
      && var r, g := rows[idx[t]], Groups(rows)[t];
      && g.slotId == r.slotId && g.slotName == r.slotName && g.startTime == r.startTime && g.endTime == r.endTime)
  {
    idx := KeepFirstIndices(rows, SlotOf);
    var firsts := KeepFirst(rows, SlotOf);
    KeepFirstDistinct(rows, SlotOf);
    KeepFirstKeys(rows, SlotOf);
    GroupsOfFirsts(rows, firsts);
    GroupsDistinct(firsts, Groups(rows));
    GroupsCover(rows, firsts, Groups(rows));
    GroupsHeads(rows, firsts, Groups(rows), idx);
  }

  /** Group `j` is the group opened by the `j`-th first row of a slot. */
  lemma GroupsOfFirsts(rows: seq<Row>, firsts: seq<Row>)
    requires firsts == KeepFirst(rows, SlotOf)
    ensures |Groups(rows)| == |firsts|
    ensures forall j :: 0 <= j < |firsts| ==> Groups(rows)[j] == GroupFor(rows, firsts[j])
  {
  }

  lemma GroupsDistinct(firsts: seq<Row>, gs: seq<SlotGroup>)
    requires |gs| == |firsts| && forall j :: 0 <= j < |firsts| ==> gs[j].slotId == firsts[j].slotId
    requires forall i, j :: 0 <= i < j < |firsts| ==> SlotOf(firsts[i]) != SlotOf(firsts[j])
    ensures forall i, j :: 0 <= i < j < |gs| ==> gs[i].slotId != gs[j].slotId
  {
    forall i, j | 0 <= i < j < |gs| ensures gs[i].slotId != gs[j].slotId {
      assert SlotOf(firsts[i]) != SlotOf(firsts[j]);
    }
  }

  lemma GroupsCover(rows: seq<Row>, firsts: seq<Row>, gs: seq<SlotGroup>)
    requires |gs| == |firsts| && forall j :: 0 <= j < |firsts| ==> gs[j].slotId == firsts[j].slotId
    requires KeysOf(firsts, SlotOf) == KeysOf(rows, SlotOf)
    ensures forall r :: r in rows ==> exists t :: 0 <= t < |gs| && gs[t].slotId == r.slotId
  {
    forall r | r in rows ensures exists t :: 0 <= t < |gs| && gs[t].slotId == r.slotId {
      var i :| 0 <= i < |rows| && rows[i] == r;
      assert SlotOf(rows[i]) in KeysOf(rows, SlotOf);
      var t :| 0 <= t < |firsts| && SlotOf(firsts[t]) == SlotOf(r);
      assert gs[t].slotId == r.slotId;
    }
  }

  lemma GroupsHeads(rows: seq<Row>, firsts: seq<Row>, gs: seq<SlotGroup>, idx: seq<nat>)
    requires |gs| == |firsts| && forall j :: 0 <= j < |firsts| ==> gs[j] == GroupFor(rows, firsts[j])
    requires |idx| == |firsts|
    requires forall t :: 0 <= t < |idx| ==> idx[t] < |rows| && rows[idx[t]] == firsts[t] && IsFirst(rows, SlotOf, idx[t])
    ensures forall t :: 0 <= t < |idx| ==> (idx[t] < |rows| && IsFirst(rows, SlotOf, idx[t])
      && var r, g := rows[idx[t]], gs[t];
      && g.slotId == r.slotId && g.slotName == r.slotName && g.startTime == r.startTime && g.endTime == r.endTime)
  {
  }

  /**
   * A row with a student lands in the group of its own slot and in no other;
   * a slot-only row lands in none; each group lists its students in input order.
   */
  lemma GroupsMembers(rows: seq<Row>, t: int, x: Row, p: Row -> bool)
    requires 0 <= t < |Groups(rows)|
    requires forall y :: p(y) == (y.slotId == Groups(rows)[t].slotId && HasUser(y))
    ensures x in Groups(rows)[t].schedules <==> x in rows && HasUser(x) && x.slotId == Groups(rows)[t].slotId
    ensures Groups(rows)[t].schedules == Filter(rows, p)
  {
    var g := Groups(rows)[t];
    UsersOfSlotMembers(rows, g.slotId, x);
    UsersOfSlotIsFilter(rows, g.slotId, p);
  }

  // ----- choosing the class to show -----

  /**
   * The condition of the selection loop: the slot is in progress at `now`
   * (`start_time <= now && end_time > now`) or has not started yet
   * (`start_time > now`).
   */
  predicate Eligible(g: SlotGroup, now: string) {
    (LessEq(g.startTime, now) && Less(now, g.endTime)) || Less(now, g.startTime)
  }

  /**
   * The index the selection settles on: -1 for an empty day; otherwise the
   * first eligible class, or the last class when none is eligible.
   */
  ghost predicate IsChoice(classes: seq<SlotGroup>, now: string, index: int) {
    if |classes| == 0 then index == -1
    else
      && 0 <= index < |classes|
      && (forall j :: 0 <= j < index ==> !Eligible(classes[j], now))
      && (Eligible(classes[index], now) || index == |classes| - 1)
  }

  /** The choice of `currentClassIndex` in `loadDay`. */
  method ChooseClass(classes: seq<SlotGroup>, now: string) returns (index: int)
    ensures IsChoice(classes, now, index)
  {
    if |classes| > 0 {
      var bestMatchIndex := 0;
      var foundCurrent := false;
      var i := 0;
      while i < |classes|
        invariant 0 <= i <= |classes|
        invariant forall j :: 0 <= j < i ==> !Eligible(classes[j], now)
      {
        var slot := classes[i];
        if LessEq(slot.startTime, now) && Less(now, slot.endTime) {
          bestMatchIndex := i;
          foundCurrent := true;
          break;
        }
        if !foundCurrent && Less(now, slot.startTime) {
          bestMatchIndex := i;
          foundCurrent := true;
          break;
        }
        i := i + 1;
      }
      if !foundCurrent {
        bestMatchIndex := |classes| - 1;
      }
      index := bestMatchIndex;
    } else {
      index := -1;
    }
  }

  /** There is exactly one index the selection can settle on. */
  lemma ChoiceUnique(classes: seq<SlotGroup>, now: string, i: int, j: int)
    requires IsChoice(classes, now, i) && IsChoice(classes, now, j)
    ensures i == j
  {
  }

  /**
   * For a slot that does not end before it starts, the loop's condition
   * says just that the slot has not ended: the chosen class is the first
   * one not yet over.
   */
  lemma EligibleIffNotEnded(g: SlotGroup, now: string)
    requires LessEq(g.startTime, g.endTime)
    ensures Eligible(g, now) <==> Less(now, g.endTime)
  {
    LessEqIsLessOrEqual(g.startTime, g.endTime);
    if Less(now, g.startTime) && Less(g.startTime, g.endTime) {
      LessTransitive(now, g.startTime, g.endTime);
    }
  }

  // ----- "HH:MM" times -----

  /** `hours.padStart(2, '0') + ':' + minutes.padStart(2, '0')`. */
  function HhMm(h: nat, m: nat): string {
    Fixed(h, 2) + (":" + Fixed(m, 2))
  }

  lemma Fixed2Injective(x: nat, y: nat)
    requires x < 100 && y < 100 && Fixed(x, 2) == Fixed(y, 2)
    ensures x == y
  {
    assert Pow10(2) == 100 by { assert Pow10(1) == 10; }
    FixedRoundTrip(x, 2);
    FixedRoundTrip(y, 2);
  }

  /** On zero-padded times, string order is the order of the minute of the day. */
  lemma HhMmOrder(h1: nat, m1: nat, h2: nat, m2: nat)
    requires h1 < 100 && h2 < 100 && m1 < 60 && m2 < 60
    ensures Less(HhMm(h1, m1), HhMm(h2, m2)) <==> h1 * 60 + m1 < h2 * 60 + m2
  {
    Fixed2Digits(h1);
    Fixed2Digits(h2);
    LessConcat(Fixed(h1, 2), ":" + Fixed(m1, 2), Fixed(h2, 2), ":" + Fixed(m2, 2));
    LessFixed2(h1, h2);
    LessConcat(":", Fixed(m1, 2), ":", Fixed(m2, 2));
    LessIrreflexive(":");
    LessFixed2(m1, m2);
    if Fixed(h1, 2) == Fixed(h2, 2) {
      Fixed2Injective(h1, h2);
    }
  }

  /** With zero-padded slot times, eligibility is a comparison of minutes of the day. */
  lemma EligibleByMinutes(g: SlotGroup, sh: nat, sm: nat, eh: nat, em: nat, h: nat, m: nat)
    requires sh < 100 && eh < 100 && h < 100 && sm < 60 && em < 60 && m < 60
    requires g.startTime == HhMm(sh, sm) && g.endTime == HhMm(eh, em)
    ensures Eligible(g, HhMm(h, m))
      <==> (sh * 60 + sm <= h * 60 + m < eh * 60 + em) || h * 60 + m < sh * 60 + sm
  {
    HhMmOrder(h, m, sh, sm);
    HhMmOrder(h, m, eh, em);
  }

  // ----- the selected class -----

  predicate IsAbsent(r: Row) {
    r.status == Absent
  }

  predicate NotAbsent(r: Row) {
    r.status != Absent
  }

  /** `schedules.filter(s => s.status !== '欠席')`. */
  function Attendees(schedules: seq<Row>): seq<Row> {
    Filter(schedules, NotAbsent)
  }

  /** `schedules.filter(s => s.status === '欠席')`. */
  function Absentees(schedules: seq<Row>): seq<Row> {
    Filter(schedules, IsAbsent)
  }

  /**
   * Attendees and absentees split the list: no row is in both, together
   * they are the list, and each keeps the input order.
   */
  lemma AttendancePartition(schedules: seq<Row>) returns (ia: seq<nat>, ib: seq<nat>)
    ensures multiset(Attendees(schedules)) + multiset(Absentees(schedules)) == multiset(schedules)
    ensures |Attendees(schedules)| + |Absentees(schedules)| == |schedules|
    ensures forall x :: x in Attendees(schedules) ==> x.status != Absent && x !in Absentees(schedules)
    ensures forall x :: x in Absentees(schedules) ==> x.status == Absent
    ensures |ia| == |Attendees(schedules)| && forall t :: 0 <= t < |ia| ==> ia[t] < |schedules| && schedules[ia[t]] == Attendees(schedules)[t]
    ensures forall t, u :: 0 <= t < u < |ia| ==> ia[t] < ia[u]
    ensures |ib| == |Absentees(schedules)| && forall t :: 0 <= t < |ib| ==> ib[t] < |schedules| && schedules[ib[t]] == Absentees(schedules)[t]
    ensures forall t, u :: 0 <= t < u < |ib| ==> ib[t] < ib[u]
  {
    FilterPartition(schedules, NotAbsent, IsAbsent);
    ia := FilterIndices(schedules, NotAbsent);
    ib := FilterIndices(schedules, IsAbsent);
  }

  /** The controls on an attendee's card. */
  datatype Control = CancelAttendance(userId: Option<string>) | RecordAttendance(userId: Option<string>) | MarkAbsent(scheduleId: int)

  /** The status tag on an attendee's card: shown unless the booking is regular. */
  function StatusTag(r: Row): (tag: Option<string>)
    ensures tag.Some? <==> r.status != Regular
    ensures tag.Some? ==> tag.value == r.status
  {
    if r.status != Regular then Some(r.status) else None
  }

  /** A present student can only have attendance cancelled; anyone else can be recorded present or absent. */
  function Controls(r: Row): (cs: seq<Control>)
    ensures r.isPresent ==> cs == [CancelAttendance(r.userId)]
    ensures !r.isPresent ==> cs == [RecordAttendance(r.userId), MarkAbsent(r.scheduleId)]
  {
    if r.isPresent then [CancelAttendance(r.userId)]
    else [RecordAttendance(r.userId), MarkAbsent(r.scheduleId)]
  }

  /**
   * Each card offers cancelling or recording attendance, never both, and
   * offers marking absent exactly when it offers recording, for that
   * card's own booking.
   */
  lemma ControlsExclusive(r: Row)
    ensures (exists c :: c in Controls(r) && c.CancelAttendance?) <==> r.isPresent
    ensures (exists c :: c in Controls(r) && c.RecordAttendance?) <==> !r.isPresent
    ensures (exists c :: c in Controls(r) && c.MarkAbsent?) <==> !r.isPresent
    ensures forall c :: c in Controls(r) ==> c == MarkAbsent(r.scheduleId) || c.userId == r.userId
  {
    var cs := Controls(r);
    assert cs[0] in cs;
    if !r.isPresent {
      assert cs[1] in cs;
    }
  }

  // ----- the page state -----

  /** What the class panel shows. */
  datatype View = Loading | Failed | NoClass | Showing(slot: SlotGroup, attendees: seq<Row>, absentees: seq<Row>)

  class Dashboard {
    var dailyClasses: seq<SlotGroup>
    var currentClassIndex: int
    var prevDisabled: bool
    var nextDisabled: bool
    var view: View

    /** The index is -1 on an empty day and a class of the day otherwise. */
    ghost predicate Valid()
      reads this
    {
      if dailyClasses == [] then currentClassIndex == -1 else 0 <= currentClassIndex < |dailyClasses|
    }

    /** The panel and the buttons show the current class, as `renderCurrentClassView` draws them. */
    ghost predicate Rendered()
      reads this
    {
      if currentClassIndex < 0 || currentClassIndex >= |dailyClasses| then
        view == NoClass && prevDisabled && nextDisabled
      else
        var g := dailyClasses[currentClassIndex];
        && view == Showing(g, Attendees(g.schedules), Absentees(g.schedules))
        && prevDisabled == (currentClassIndex <= 0)
        && nextDisabled == (currentClassIndex >= |dailyClasses| - 1)
    }

    constructor()
      ensures dailyClasses == [] && currentClassIndex == -1
      ensures view == Loading && prevDisabled && nextDisabled
      ensures Valid()
    {
      dailyClasses := [];
      currentClassIndex := -1;
      prevDisabled := true;
      nextDisabled := true;
      view := Loading;
    }

    /** `renderCurrentClassView`. */
    method Render()
      modifies this
      ensures dailyClasses == old(dailyClasses) && currentClassIndex == old(currentClassIndex)
      ensures Rendered()
    {
      if currentClassIndex < 0 || currentClassIndex >= |dailyClasses| {
        view := NoClass;
        prevDisabled := true;
        nextDisabled := true;
        return;
      }
      var g := dailyClasses[currentClassIndex];
      view := Showing(g, Attendees(g.schedules), Absentees(g.schedules));
      prevDisabled := currentClassIndex <= 0;
      nextDisabled := currentClassIndex >= |dailyClasses| - 1;
    }

    /**
     * `loadDay` once the roster request has answered: `results` is the
     * parsed array, or `None` when the request failed or did not return an
     * array; `hour` and `minute` are the host clock's local time.
     */
    method LoadDay(results: Option<seq<Row>>, hour: nat, minute: nat)
      requires hour < 24 && minute < 60
      requires Valid()
      modifies this
      ensures Valid()
      ensures results.None? ==> (dailyClasses == old(dailyClasses) && currentClassIndex == old(currentClassIndex)
        && view == Failed && prevDisabled && nextDisabled)
      ensures results.Some? ==> (dailyClasses == Groups(results.value)
        && IsChoice(dailyClasses, HhMm(hour, minute), currentClassIndex) && Rendered())
    {
      view := Loading;
      prevDisabled := true;
      nextDisabled := true;
      if results.None? {
        view := Failed;
        return;
      }
      dailyClasses := GroupRows(results.value);
      if |dailyClasses| > 0 {
        var currentTime := HhMm(hour, minute);
        currentClassIndex := ChooseClass(dailyClasses, currentTime);
      } else {
        currentClassIndex := -1;
      }
      Render();
    }

    /** The previous-class button's handler. */
    method ClickPrev()
      requires Valid()
      modifies this
      ensures Valid() && dailyClasses == old(dailyClasses)
      ensures old(currentClassIndex) > 0 ==> currentClassIndex == old(currentClassIndex) - 1 && Rendered()
      ensures old(currentClassIndex) <= 0 ==> (currentClassIndex == old(currentClassIndex)
        && view == old(view) && prevDisabled == old(prevDisabled) && nextDisabled == old(nextDisabled))
    {
      if currentClassIndex > 0 {
        currentClassIndex := currentClassIndex - 1;
        Render();
      }
    }

    /** The next-class button's handler. */
    method ClickNext()
      requires Valid()
      modifies this
      ensures Valid() && dailyClasses == old(dailyClasses)
      ensures old(currentClassIndex) < |dailyClasses| - 1 ==> currentClassIndex == old(currentClassIndex) + 1 && Rendered()
      ensures old(currentClassIndex) >= |dailyClasses| - 1 ==> (currentClassIndex == old(currentClassIndex)
        && view == old(view) && prevDisabled == old(prevDisabled) && nextDisabled == old(nextDisabled))
    {
      if currentClassIndex < |dailyClasses| - 1 {
        currentClassIndex := currentClassIndex + 1;
        Render();
      }
    }
  }
}
