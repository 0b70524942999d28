/**
 * Calendar arithmetic of ECMAScript's `Date` (section 21.4.1 of ECMA-262):
 * days counted from 1970-01-01 in the proleptic Gregorian calendar, the UTC
 * weekday `(Day(t) + 4) mod 7`, `MakeDay` with its month overflow, the
 * two-digit-year rule of `Date.UTC` and `new Date(y, m, d)`, and the
 * `YYYY-MM-DD` date strings of ISO 8601 (extended calendar date format).
 */
module CivilDate {
  import opened Wrappers
  import opened Text

  const MsPerHour: int := 3600000
  const MsPerDay: int := 86400000

  datatype Date = Date(year: int, month: int, day: int)

  predicate IsLeapYear(y: int) {
    y % 4 == 0 && (y % 100 != 0 || y % 400 == 0)
  }

  function DaysInMonth(y: int, m: int): (n: int)
    requires 1 <= m <= 12
    ensures 28 <= n <= 31
    ensures m == 2 ==> (n == 29 <==> IsLeapYear(y))
  {
    if m == 2 then (if IsLeapYear(y) then 29 else 28)
    else if m == 4 || m == 6 || m == 9 || m == 11 then 30
    else 31
  }

  /** A real calendar date: month 1..12 and a day that exists in that month. */
  predicate Valid(d: Date) {
    1 <= d.month <= 12 && 1 <= d.day <= DaysInMonth(d.year, d.month)
  }

  // Years are counted from March, so that the leap day is the last day of a year.

  /** Days from 1 March to the first day of the month `mp` months later. */
  function MarchStart(mp: int): int
    requires 0 <= mp <= 11
  {
    [0, 31, 61, 92, 122, 153, 184, 214, 245, 275, 306, 337][mp]
  }

  /** Months counted from March: 0 for March .. 11 for February. */
  function MarchIndex(m: int): int
    requires 1 <= m <= 12
  {
    if m >= 3 then m - 3 else m + 9
  }

  /** Number of days from 0000-03-01 to 1 March of year `ya`. */
  function YearStart(ya: int): int {
    var era := ya / 400;
    var yoe := ya % 400;
    era * 146097 + 365 * yoe + yoe / 4 - yoe / 100
  }

  /**
   * The day number (days since 1970-01-01) of day `d` of month `m` of year
   * `y`. The day may lie outside the month: it then counts on into the
   * neighbouring months, as `MakeDay` does.
   */
  function DayNumber(y: int, m: int, d: int): int
    requires 1 <= m <= 12
  {
    var ya := if m <= 2 then y - 1 else y;
    YearStart(ya) + MarchStart(MarchIndex(m)) + d - 1 - 719468
  }

  /** The month (counted from March) that holds day `doy` of a March-based year. */
  function MarchMonthOf(doy: int): (mp: int)
    ensures 0 <= mp <= 11
    ensures 0 <= doy ==> MarchStart(mp) <= doy
    ensures mp < 11 ==> doy < MarchStart(mp + 1)
  {
    if doy < 31 then 0 else if doy < 61 then 1 else if doy < 92 then 2
    else if doy < 122 then 3 else if doy < 153 then 4 else if doy < 184 then 5
    else if doy < 214 then 6 else if doy < 245 then 7 else if doy < 275 then 8
    else if doy < 306 then 9 else if doy < 337 then 10 else 11
  }

  /**
   * Splits a day of a 400-year cycle (counted from 1 March of its first
   * year) into centuries `c`, four-year blocks `q`, years `yr` and the day
   * `doy` of its March-based year.
   */
  function SplitDoe(doe: int): (int, int, int, int) {
    var c := if doe / 36524 < 3 then doe / 36524 else 3;
    var r1 := doe - 36524 * c;
    var q := r1 / 1461;
    var r2 := r1 % 1461;
    var yr := if r2 / 365 < 3 then r2 / 365 else 3;
    (c, q, yr, r2 - 365 * yr)
  }

  /** The date of day `doy` of the March-based year `ya`. */
  function FromMarchYear(ya: int, doy: int): Date {
    var mp := MarchMonthOf(doy);
    var m := if mp < 10 then mp + 3 else mp - 9;
    Date(if m <= 2 then ya + 1 else ya, m, doy - MarchStart(mp) + 1)
  }

  /** The calendar date of day number `n`. */
  function CivilOf(n: int): Date {
    var z := n + 719468;
    var era := z / 146097;
    var (c, q, yr, doy) := SplitDoe(z % 146097);
    FromMarchYear(era * 400 + 100 * c + 4 * q + yr, doy)
  }

  // ----- the two directions of the calendar -----

  /** Parts of a 400-year cycle that name a real day: day 365 only in a year before a leap day. */
  predicate PartsOk(c: int, q: int, yr: int, doy: int) {
    && 0 <= c <= 3 && 0 <= q <= 24 && 0 <= yr <= 3 && 0 <= doy <= 365
    && (doy == 365 ==> yr == 3 && (q != 24 || c == 3))
  }

  lemma SplitDoeParts(doe: int)
    requires 0 <= doe < 146097
    ensures var (c, q, yr, doy) := SplitDoe(doe);
      PartsOk(c, q, yr, doy) && doe == 36524 * c + 1461 * q + 365 * yr + doy
  {
  }

  lemma SplitDoeOfParts(c: int, q: int, yr: int, doy: int)
    requires PartsOk(c, q, yr, doy)
    ensures 0 <= 36524 * c + 1461 * q + 365 * yr + doy < 146097
    ensures SplitDoe(36524 * c + 1461 * q + 365 * yr + doy) == (c, q, yr, doy)
  {
    var doe := 36524 * c + 1461 * q + 365 * yr + doy;
    assert c < 3 ==> doe / 36524 == c;
    var r1 := doe - 36524 * c;
    assert r1 / 1461 == q && r1 % 1461 == 365 * yr + doy;
  }

  /** `YearStart` of a year given by its parts within a 400-year cycle. */
  lemma YearStartParts(ya: int, era: int, c: int, q: int, yr: int)
    requires 0 <= c <= 3 && 0 <= q <= 24 && 0 <= yr <= 3
    requires ya == era * 400 + 100 * c + 4 * q + yr
    ensures YearStart(ya) == era * 146097 + 36524 * c + 1461 * q + 365 * yr
  {
    var yoe := 100 * c + 4 * q + yr;
    DivMod400(era, yoe);
    DivMod4(25 * c + q, yr);
    DivMod100(c, 4 * q + yr);
  }

  /** The year starting on 1 March of `ya` has 366 days exactly when the next February has a leap day. */
  lemma {:induction false} YearStartStep(ya: int)
    ensures YearStart(ya + 1) - YearStart(ya) == if IsLeapYear(ya + 1) then 366 else 365
  {
    var era, c, q, yr := YearParts(ya);
    YearStartParts(ya, era, c, q, yr);
    LeapParts(ya + 1, era, c, q, yr);
    if yr < 3 {
      YearStartParts(ya + 1, era, c, q, yr + 1);
    } else if q < 24 {
      YearStartParts(ya + 1, era, c, q + 1, 0);
    } else if c < 3 {
      YearStartParts(ya + 1, era, c + 1, 0, 0);
    } else {
      YearStartParts(ya + 1, era + 1, 0, 0, 0);
    }
  }

  /** The February after 1 March of a year has a leap day iff the parts of that year within its cycle say so. */
  lemma LeapParts(y: int, era: int, c: int, q: int, yr: int)
    requires 0 <= c <= 3 && 0 <= q <= 24 && 0 <= yr <= 3
    requires y == era * 400 + 100 * c + 4 * q + yr + 1
    ensures IsLeapYear(y) <==> yr == 3 && (q != 24 || c == 3)
  {
    if yr < 3 {
      DivMod4(100 * era + 25 * c + q, yr + 1);
    } else if q < 24 {
      DivMod4(100 * era + 25 * c + q + 1, 0);
      DivMod100(4 * era + c, 4 * q + 4);
    } else {
      DivMod4(100 * era + 25 * c + 25, 0);
      DivMod100(4 * era + c + 1, 0);
      if c < 3 {
        DivMod400(era, 100 * (c + 1));
      } else {
        DivMod400(era + 1, 0);
      }
    }
  }

  // Division by the calendar's constants, stated for each divisor.

  lemma DivMod4(a: int, r: int)
    requires 0 <= r < 4
    ensures (4 * a + r) / 4 == a && (4 * a + r) % 4 == r
  {
  }

  lemma DivMod100(a: int, r: int)
    requires 0 <= r < 100
    ensures (100 * a + r) / 100 == a && (100 * a + r) % 100 == r
  {
  }

  lemma DivMod400(a: int, r: int)
    requires 0 <= r < 400
    ensures (400 * a + r) / 400 == a && (400 * a + r) % 400 == r
  {
  }

  lemma {:induction false} MarchYearDate(ya: int, doy: int)
    requires 0 <= doy < if IsLeapYear(ya + 1) then 366 else 365
    ensures Valid(FromMarchYear(ya, doy))
    ensures var d := FromMarchYear(ya, doy); DayNumber(d.year, d.month, d.day) == YearStart(ya) + doy - 719468
  {
    var mp := MarchMonthOf(doy);
    var m := if mp < 10 then mp + 3 else mp - 9;
    assert MarchIndex(m) == mp;
  }

  lemma {:induction false} DateMarchYear(dt: Date)
    requires Valid(dt)
    ensures var ya := if dt.month <= 2 then dt.year - 1 else dt.year;
      var doy := MarchStart(MarchIndex(dt.month)) + dt.day - 1;
      && 0 <= doy < (if IsLeapYear(ya + 1) then 366 else 365)
      && FromMarchYear(ya, doy) == dt
      && DayNumber(dt.year, dt.month, dt.day) == YearStart(ya) + doy - 719468
  {
    var mp := MarchIndex(dt.month);
    var doy := MarchStart(mp) + dt.day - 1;
    assert MarchMonthOf(doy) == mp;
  }

  /** Every day number names a real date, and that date's day number is the one it came from. */
  lemma {:induction false} CivilOfValid(n: int)
    ensures Valid(CivilOf(n))
    ensures var d := CivilOf(n); DayNumber(d.year, d.month, d.day) == n
  {
    var z := n + 719468;
    var era, doe := z / 146097, z % 146097;
    SplitDoeParts(doe);
    var (c, q, yr, doy) := SplitDoe(doe);
    MarchYearOfParts(n, era, c, q, yr, doy);
    CivilOfParts(n, era, c, q, yr, doy);
  }

  /** The date named by the parts of a 400-year cycle is real, and its day number is `n`. */
  lemma MarchYearOfParts(n: int, era: int, c: int, q: int, yr: int, doy: int)
    requires PartsOk(c, q, yr, doy)
    requires n + 719468 == era * 146097 + 36524 * c + 1461 * q + 365 * yr + doy
    ensures var d := FromMarchYear(era * 400 + 100 * c + 4 * q + yr, doy);
      Valid(d) && DayNumber(d.year, d.month, d.day) == n
  {
    var ya := era * 400 + 100 * c + 4 * q + yr;
    LeapParts(ya + 1, era, c, q, yr);
    MarchYearDate(ya, doy);
    YearStartParts(ya, era, c, q, yr);
  }

  lemma YearParts(ya: int) returns (era: int, c: int, q: int, yr: int)
    ensures 0 <= c <= 3 && 0 <= q <= 24 && 0 <= yr <= 3
    ensures ya == era * 400 + 100 * c + 4 * q + yr
  {
    era := ya / 400;
    var yoe := ya % 400;
    c, q, yr := yoe / 100, (yoe % 100) / 4, yoe % 4;
  }

  lemma EraDivMod(z: int, era: int, doe: int)
    requires 0 <= doe < 146097 && z == era * 146097 + doe
    ensures z / 146097 == era && z % 146097 == doe
  {
  }

  /** The date of the day named by the parts of a 400-year cycle. */
  lemma CivilOfParts(n: int, era: int, c: int, q: int, yr: int, doy: int)
    requires PartsOk(c, q, yr, doy)
    requires n + 719468 == era * 146097 + 36524 * c + 1461 * q + 365 * yr + doy
    ensures CivilOf(n) == FromMarchYear(era * 400 + 100 * c + 4 * q + yr, doy)
  {
    var doe := 36524 * c + 1461 * q + 365 * yr + doy;
    SplitDoeOfParts(c, q, yr, doy);
    EraDivMod(n + 719468, era, doe);
  }

  /** The date of a real date's day number is that date. */
  lemma {:induction false} DayNumberCivil(dt: Date)
    requires Valid(dt)
    ensures CivilOf(DayNumber(dt.year, dt.month, dt.day)) == dt
  {
    var ya := if dt.month <= 2 then dt.year - 1 else dt.year;
    var doy := MarchStart(MarchIndex(dt.month)) + dt.day - 1;
    DateMarchYear(dt);
    var era, c, q, yr := YearParts(ya);
    LeapParts(ya + 1, era, c, q, yr);
    YearStartParts(ya, era, c, q, yr);
    CivilOfParts(DayNumber(dt.year, dt.month, dt.day), era, c, q, yr, doy);
    assert FromMarchYear(ya, doy) == FromMarchYear(era * 400 + 100 * c + 4 * q + yr, doy);
  }

  // ----- ECMAScript's Date operations -----

  /** `WeekDay(t) = (Day(t) + 4) mod 7` for the day number `n`: 0 is Sunday. */
  function WeekDay(n: int): (w: int)
    ensures 0 <= w < 7
  {
    (n + 4) % 7
  }

  /** Consecutive days have consecutive weekdays; 1970-01-01 was a Thursday. */
  lemma WeekDaySuccessor(n: int)
    ensures WeekDay(n + 1) == (WeekDay(n) + 1) % 7
    ensures WeekDay(DayNumber(1970, 1, 1)) == 4
  {
  }

  /** `MakeDay(year, month, date)`: a month index out of 0..11 carries into the year. */
  function MakeDay(y: int, month0: int, d: int): int {
    DayNumber(y + month0 / 12, month0 % 12 + 1, d)
  }

  /** `Date.UTC` and the `Date(y, m, d)` constructor read a year 0..99 as 1900..1999. */
  function JsYear(y: int): int {
    if 0 <= y <= 99 then 1900 + y else y
  }

  /** `Day(t)`: the day number of the millisecond instant `t`, rounding down. */
  function DayOf(t: int): int {
    t / MsPerDay
  }

  /** The UTC calendar date of the instant `t`. */
  function UtcDate(t: int): Date {
    CivilOf(DayOf(t))
  }

  lemma {:induction false} DayNumberDayStep(y: int, m: int, d: int)
    requires 1 <= m <= 12
    ensures DayNumber(y, m, d + 1) == DayNumber(y, m, d) + 1
  {
  }

  /** The first of the next month is `DaysInMonth` days after the first of this one. */
  lemma {:induction false} MonthStep(y: int, m: int)
    requires 1 <= m <= 11
    ensures DayNumber(y, m + 1, 1) == DayNumber(y, m, 1) + DaysInMonth(y, m)
  {
    if m == 2 {
      YearStartStep(y - 1);
    }
  }

  /** `new Date(y, m0 + 1, 0).getDate()` is the length of month `m0` (counted from 0), year change included. */
  lemma {:induction false} DayZeroOfNextMonth(y: int, m0: int)
    requires 0 <= m0 <= 11
    ensures CivilOf(MakeDay(y, m0 + 1, 0)) == Date(y, m0 + 1, DaysInMonth(y, m0 + 1))
  {
    var m := m0 + 1;
    var last := DaysInMonth(y, m);
    if m0 < 11 {
      MakeDayInYear(y, m, 0);
      MonthStep(y, m);
      DayNumberShift(y, m + 1, 0, 1);
      DayNumberShift(y, m, last, 1);
    } else {
      MakeDayNextYear(y, 0);
    }
    assert MakeDay(y, m, 0) == DayNumber(y, m, last);
    DayNumberCivil(Date(y, m, last));
  }

  /** A month index 0..11 stays in its year. */
  lemma MakeDayInYear(y: int, month0: int, d: int)
    requires 0 <= month0 <= 11
    ensures MakeDay(y, month0, d) == DayNumber(y, month0 + 1, d)
  {
    assert month0 / 12 == 0 && month0 % 12 == month0;
  }

  /** Month index 12 is January of the next year, and its day 0 is 31 December. */
  lemma MakeDayNextYear(y: int, d: int)
    ensures MakeDay(y, 12, d) == DayNumber(y + 1, 1, d)
    ensures DayNumber(y + 1, 1, 0) == DayNumber(y, 12, 31)
  {
  }

  /** Day numbers within one month differ by the difference of the days. */
  lemma DayNumberShift(y: int, m: int, d: int, e: int)
    requires 1 <= m <= 12
    ensures DayNumber(y, m, d) == DayNumber(y, m, e) + d - e
  {
  }

  // ----- YYYY-MM-DD -----

  /** The year part of `toISOString`: four digits, or a sign and six digits outside 0..9999. */
  function IsoYear(y: int): string {
    if 0 <= y <= 9999 then Fixed(y, 4)
    else (if y < 0 then "-" else "+") + Fixed(if y < 0 then -y else y, 6)
  }

  /** The date part of `toISOString()`, the text before `T`. */
  function IsoDate(d: Date): string
    requires Valid(d)
  {
    IsoYear(d.year) + "-" + Fixed(d.month, 2) + "-" + Fixed(d.day, 2)
  }

  /** Reads a `YYYY-MM-DD` calendar date; anything else, or a day the month lacks, is `None`. */
  function ParseIsoDate(s: string): (r: Option<Date>)
    ensures r.Some? ==> Valid(r.value) && 0 <= r.value.year <= 9999
  {
    if |s| == 10 && s[4] == '-' && s[7] == '-'
       && AllDigits(s[..4]) && AllDigits(s[5..7]) && AllDigits(s[8..])
    then
      var d := Date(DigitsValue(s[..4]), DigitsValue(s[5..7]), DigitsValue(s[8..]));
      if Valid(d) && d.year <= 9999 then Some(d) else None
    else None
  }

  lemma Pow10Values()
    ensures Pow10(2) == 100 && Pow10(4) == 10000
  {
    assert Pow10(1) == 10;
    assert Pow10(3) == 1000;
  }

  /** Reading back a formatted date gives the date. */
  lemma IsoDateRoundTrip(d: Date)
    requires Valid(d) && 0 <= d.year <= 9999
    ensures |IsoDate(d)| == 10
    ensures ParseIsoDate(IsoDate(d)) == Some(d)
  {
    Pow10Values();
    FixedRoundTrip(d.year, 4);
    FixedRoundTrip(d.month, 2);
    FixedRoundTrip(d.day, 2);
    DateTextParts(Fixed(d.year, 4), Fixed(d.month, 2), Fixed(d.day, 2));
  }

  /** The three fields of a `YYYY-MM-DD` text sit at fixed positions. */
  lemma DateTextParts(y4: string, m2: string, d2: string)
    requires |y4| == 4 && |m2| == 2 && |d2| == 2
    ensures var s := y4 + "-" + m2 + "-" + d2;
      && |s| == 10 && s[4] == '-' && s[7] == '-'
      && s[..4] == y4 && s[5..7] == m2 && s[8..] == d2
  {
    var s := y4 + "-" + m2 + "-" + d2;
    assert s == y4 + ("-" + m2 + "-" + d2);
  }

  /** A digit text is the padded rendering of its value at its own width. */
  lemma DigitsAreFixed(p: string, v: nat)
    requires 1 <= |p| && AllDigits(p) && DigitsValue(p) == v && v < Pow10(|p|)
    ensures p == Fixed(v, |p|)
  {
    FixedRoundTrip(v, |p|);
    DigitsValueInjective(p, Fixed(v, |p|));
  }

  /** A `YYYY-MM-DD`-shaped text is the padded rendering of the numbers it reads as. */
  lemma DateTextOfValues(s: string, y: nat, m: nat, dd: nat)
    requires |s| == 10 && s[4] == '-' && s[7] == '-'
    requires AllDigits(s[..4]) && AllDigits(s[5..7]) && AllDigits(s[8..])
    requires y < 10000 && m < 100 && dd < 100
    requires DigitsValue(s[..4]) == y && DigitsValue(s[5..7]) == m && DigitsValue(s[8..]) == dd
    ensures s == Fixed(y, 4) + "-" + Fixed(m, 2) + "-" + Fixed(dd, 2)
  {
    Pow10Values();
    DigitsAreFixed(s[..4], y);
    DigitsAreFixed(s[5..7], m);
    DigitsAreFixed(s[8..], dd);
    assert s == s[..4] + "-" + s[5..7] + "-" + s[8..];
  }

  /** Whatever text parses as a date is that date's formatted text. */
  lemma ParseIsoDateSound(s: string)
    requires ParseIsoDate(s).Some?
    ensures IsoDate(ParseIsoDate(s).value) == s
  {
    var d := ParseIsoDate(s).value;
    assert |s| == 10 && s[4] == '-' && s[7] == '-' && AllDigits(s[..4]) && AllDigits(s[5..7]) && AllDigits(s[8..]);
    assert d == Date(DigitsValue(s[..4]), DigitsValue(s[5..7]), DigitsValue(s[8..]));
    assert IsoYear(d.year) == Fixed(d.year, 4);
    DateTextOfValues(s, d.year, d.month, d.day);
  }

  /** `toISOString()`: the UTC date and time of the instant `t`, to the millisecond. */
  function IsoString(t: int): string {
    CivilOfValid(DayOf(t));
    IsoDate(UtcDate(t)) + "T" + IsoTime(t % MsPerDay)
  }

  /** The time part of `toISOString()` for millisecond `r` of the day: `HH:mm:ss.sssZ`. */
  function IsoTime(r: nat): string {
    Fixed(r / MsPerHour, 2) + ":" + Fixed(r / 60000 % 60, 2) + ":" + Fixed(r / 1000 % 60, 2)
      + "." + Fixed(r % 1000, 3) + "Z"
  }

  /** `toISOString().split('T')[0]`. */
  function UtcIsoDate(t: int): string {
    BeforeFirst(IsoString(t), 'T')
  }

  /** `toISOString()` of an instant on date `d`, `r` milliseconds into the day. */
  lemma IsoStringOn(t: int, d: Date, r: nat)
    requires UtcDate(t) == d && t % MsPerDay == r
    ensures Valid(d)
    ensures IsoString(t) == IsoDate(d) + "T" + IsoTime(r)
  {
    CivilOfValid(DayOf(t));
  }

  lemma IsoDateHasNoT(d: Date)
    requires Valid(d)
    ensures 'T' !in IsoDate(d)
  {
    var y := d.year;
    PadStartDigits(Decimal(if y < 0 then -y else y), if 0 <= y <= 9999 then 4 else 6);
    PadStartDigits(Decimal(d.month), 2);
    PadStartDigits(Decimal(d.day), 2);
  }

  /** The date part of `toISOString()` is the UTC calendar date of the instant. */
  lemma UtcIsoDateIsDate(t: int)
    ensures Valid(UtcDate(t))
    ensures UtcIsoDate(t) == IsoDate(UtcDate(t))
  {
    CivilOfValid(DayOf(t));
    var d := UtcDate(t);
    IsoDateHasNoT(d);
    BeforeFirstConcat(IsoDate(d), 'T', IsoTime(t % MsPerDay));
  }

  /** Distinct four-digit-year dates have distinct strings. */
  lemma IsoDateInjective(a: Date, b: Date)
    requires Valid(a) && 0 <= a.year <= 9999
    requires Valid(b) && 0 <= b.year <= 9999
    requires IsoDate(a) == IsoDate(b)
    ensures a == b
  {
    IsoDateRoundTrip(a);
    IsoDateRoundTrip(b);
  }
}
