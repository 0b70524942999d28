/**
 * The batch attendance page: the facility's "today" in Japan Standard Time,
 * the noon-JST instant recorded for a manual attendance, the id of a
 * student's row, and the guards in front of the page's requests.
 */
module BatchProcess {
  import opened Wrappers
  import opened Text
  import opened CivilDate

  /** Japan Standard Time is nine hours ahead of UTC. */
  const JstOffset: int := 9 * MsPerHour

  // ----- getTodayString -----

  /** `getTodayString()` at the instant `now` (epoch milliseconds): the UTC date of `now + 9 h`. */
  function TodayString(now: int): string {
    UtcIsoDate(now + JstOffset)
  }

  /**
   * The result is the `YYYY-MM-DD` text of the calendar date in Japan at
   * `now`; for four-digit years it is ten characters and reads back as
   * that date.
   */
  lemma TodayIsJstDate(now: int)
    ensures Valid(UtcDate(now + JstOffset))
    ensures TodayString(now) == IsoDate(UtcDate(now + JstOffset))
    ensures 0 <= UtcDate(now + JstOffset).year <= 9999 ==>
      |TodayString(now)| == 10 && ParseIsoDate(TodayString(now)) == Some(UtcDate(now + JstOffset))
  {
    UtcIsoDateIsDate(now + JstOffset);
    if 0 <= UtcDate(now + JstOffset).year <= 9999 {
      IsoDateRoundTrip(UtcDate(now + JstOffset));
    }
  }

  /** From 15:00 UTC on, Japan is already on the next UTC calendar day; before it, on the same day. */
  lemma TodayRollover(now: int)
    ensures now % MsPerDay >= 15 * MsPerHour ==> DayOf(now + JstOffset) == DayOf(now) + 1
    ensures now % MsPerDay < 15 * MsPerHour ==> DayOf(now + JstOffset) == DayOf(now)
  {
    var q, r := now / MsPerDay, now % MsPerDay;
    assert now + JstOffset == q * MsPerDay + (r + JstOffset);
    if r >= 15 * MsPerHour {
      assert now + JstOffset == (q + 1) * MsPerDay + (r + JstOffset - MsPerDay);
    }
  }

  // ----- the manual attendance timestamp -----

  /** Noon in Japan on the date `d`, as epoch milliseconds. */
  function NoonOf(d: Date): int
    requires 1 <= d.month <= 12
  {
    DayNumber(d.year, d.month, d.day) * MsPerDay + 12 * MsPerHour - JstOffset
  }

  /**
   * `new Date(`${targetDate}T12:00:00+09:00`)` as epoch milliseconds: noon in
   * Japan on the given date. A text that is not a calendar date gives an
   * invalid date (`None`).
   */
  function NoonJst(targetDate: string): (t: Option<int>)
    ensures t.Some? <==> ParseIsoDate(targetDate).Some?
  {
    match ParseIsoDate(targetDate)
    case None => None
    case Some(d) => Some(NoonOf(d))
  }

  /** `logTimeForDate`: `toISOString()` of that instant, which throws for an invalid date. */
  function LogTimeForDate(targetDate: string): (r: Option<string>)
    ensures r.Some? <==> ParseIsoDate(targetDate).Some?
  {
    match NoonJst(targetDate)
    case None => None
    case Some(t) => Some(IsoString(t))
  }

  /** The instant `r` milliseconds into day `n` lies on day `n`. */
  lemma DayOfInstant(n: int, r: int)
    requires 0 <= r < MsPerDay
    ensures DayOf(n * MsPerDay + r) == n && (n * MsPerDay + r) % MsPerDay == r
  {
  }

  lemma IsoTimeThreeAm()
    ensures IsoTime(3 * MsPerHour) == "03:00:00.000Z"
  {
    var r := 3 * MsPerHour;
    assert r / MsPerHour == 3 && r / 60000 % 60 == 0 && r / 1000 % 60 == 0 && r % 1000 == 0;
    PaddedSmall();
    assert IsoTime(r) == "03" + ":" + "00" + ":" + "00" + "." + "000" + "Z";
  }

  /** The padded fields of 03:00:00.000. */
  lemma PaddedSmall()
    ensures Fixed(3, 2) == "03" && Fixed(0, 2) == "00" && Fixed(0, 3) == "000"
  {
    assert Decimal(3) == "3" && Decimal(0) == "0";
    assert PadStart("3", 2, '0') == "03";
    assert PadStart("0", 2, '0') == "00";
    assert PadStart("0", 3, '0') == "000";
  }

  /** Noon in Japan on `d` is 03:00 UTC on `d`, and 12:00 of `d` once shifted by nine hours. */
  lemma NoonOfDate(d: Date)
    requires Valid(d)
    ensures UtcDate(NoonOf(d)) == d && NoonOf(d) % MsPerDay == 3 * MsPerHour
    ensures UtcDate(NoonOf(d) + JstOffset) == d
  {
    DateOfInstant(d, NoonOf(d), 3 * MsPerHour);
    DateOfInstant(d, NoonOf(d) + JstOffset, 12 * MsPerHour);
  }

  /** An instant `r` milliseconds into the day of a real date `d` has `d` as its UTC date. */
  lemma DateOfInstant(d: Date, t: int, r: int)
    requires Valid(d) && 0 <= r < MsPerDay
    requires t == DayNumber(d.year, d.month, d.day) * MsPerDay + r
    ensures UtcDate(t) == d && t % MsPerDay == r
  {
    DayOfInstant(DayNumber(d.year, d.month, d.day), r);
    DayNumberCivil(d);
  }

  lemma IsoStringOfNoon(d: Date)
    requires Valid(d)
    ensures IsoString(NoonOf(d)) == IsoDate(d) + "T" + IsoTime(3 * MsPerHour)
  {
    NoonOfDate(d);
    IsoStringOn(NoonOf(d), d, 3 * MsPerHour);
  }

  lemma ThreeAmSuffix(date: string)
    ensures date + "T" + IsoTime(3 * MsPerHour) == date + "T03:00:00.000Z"
  {
    var time := IsoTime(3 * MsPerHour);
    IsoTimeThreeAm();
    assert "T" + "03:00:00.000Z" == "T03:00:00.000Z";
    assert date + "T" + time == date + ("T" + time);
  }

  /**
   * The recorded log time is the date followed by `T03:00:00.000Z`, so its
   * UTC date, the key the student calendar counts it under, is the chosen
   * date itself.
   */
  lemma LogTimeForDateShape(targetDate: string)
    requires ParseIsoDate(targetDate).Some?
    ensures LogTimeForDate(targetDate) == Some(targetDate + "T03:00:00.000Z")
    ensures UtcIsoDate(NoonJst(targetDate).value) == targetDate
  {
    var d := ParseIsoDate(targetDate).value;
    ParseIsoDateSound(targetDate);
    IsoStringOfNoon(d);
    ThreeAmSuffix(targetDate);
    NoonOfDate(d);
    UtcIsoDateIsDate(NoonOf(d));
  }

  lemma TodayOfNoon(d: Date)
    requires Valid(d)
    ensures TodayString(NoonOf(d)) == IsoDate(d)
  {
    NoonOfDate(d);
    UtcIsoDateIsDate(NoonOf(d) + JstOffset);
  }

  /** Reading the noon-JST instant back through `getTodayString`'s rule gives the chosen date. */
  lemma TodayOfNoonJst(targetDate: string)
    requires ParseIsoDate(targetDate).Some?
    ensures TodayString(NoonJst(targetDate).value) == targetDate
  {
    TodayOfNoon(ParseIsoDate(targetDate).value);
    ParseIsoDateSound(targetDate);
  }

  // ----- the row of a student -----

  /** `row-${user_id}-${slot_id}`, with the numeric slot id in decimal. */
  function RowId(userId: string, slotId: nat): string {
    "row-" + userId + "-" + Decimal(slotId)
  }

  /** Distinct (user, slot) pairs get distinct row ids, whatever characters the user id holds. */
  lemma RowIdInjective(u1: string, s1: nat, u2: string, s2: nat)
    requires RowId(u1, s1) == RowId(u2, s2)
    ensures u1 == u2 && s1 == s2
  {
    assert RowId(u1, s1) == ("row-" + u1) + ['-'] + Decimal(s1);
    assert RowId(u2, s2) == ("row-" + u2) + ['-'] + Decimal(s2);
    JoinDigitsInjective("row-" + u1, Decimal(s1), "row-" + u2, Decimal(s2), '-');
    assert u1 == ("row-" + u1)[4..] && u2 == ("row-" + u2)[4..];
    DecimalInjective(s1, s2);
  }

  // ----- the page's requests -----

  /** The date form's submit: the unaccounted list is fetched only for a non-empty date. */
  function SubmitDate(targetDate: string): (fetch: Option<string>)
    ensures fetch.Some? <==> targetDate != ""
    ensures fetch.Some? ==> fetch.value == targetDate
  {
    if targetDate != "" then Some(targetDate) else None
  }

  datatype Button = AttendButton | AbsentButton

  datatype Request =
    | EntryLog(loggedUser: Option<string>, logTime: string)
    | MakeAbsent(userId: string, classDate: string, slotId: string)

  /**
   * The request a click on a row's button sends, if any. `userId` and
   * `slotId` are the button's `data-` attributes (absent ones are `None`).
   */
  function ClickRequest(button: Button, userId: Option<string>, slotId: Option<string>, targetDate: string): (r: Option<Request>)
    ensures button == AttendButton ==>
      (r.Some? <==> ParseIsoDate(targetDate).Some?)
      && (r.Some? ==> r.value == EntryLog(userId, targetDate + "T03:00:00.000Z"))
    ensures button == AbsentButton ==>
      (r.Some? <==> Truthy(userId) && Truthy(slotId))
      && (r.Some? ==> r.value == MakeAbsent(userId.value, targetDate, slotId.value))
  {
    match button
    case AttendButton =>
      (match LogTimeForDate(targetDate)
       case None => None
       case Some(logTime) =>
         LogTimeForDateShape(targetDate);
         Some(EntryLog(userId, logTime)))
    case AbsentButton =>
      if !Truthy(userId) || !Truthy(slotId) then None
      else Some(MakeAbsent(userId.value, targetDate, slotId.value))
  }
}
