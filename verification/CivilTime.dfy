/** Timestamps (`offline_approval.rs`): seconds to civil date, back again, and the RFC 3339 text form. */
module CivilTime {

  datatype Date = Date(year: int, month: int, day: int)

  datatype Moment = Moment(date: Date, hour: int, minute: int, second: int)

  // ---------- The Gregorian calendar, independently of the algorithm ----------

  predicate IsLeap(y: int) { y % 4 == 0 && (y % 100 != 0 || y % 400 == 0) }

  function DaysInMonth(y: int, m: int): int {
    if m == 2 then if IsLeap(y) then 29 else 28
    else if m == 4 || m == 6 || m == 9 || m == 11 then 30
    else 31
  }

  predicate ValidDate(d: Date) {
    1 <= d.month <= 12 && 1 <= d.day <= DaysInMonth(d.year, d.month)
  }

  /** The day after a date. */
  function NextDay(d: Date): Date {
    if d.day < DaysInMonth(d.year, d.month) then d.(day := d.day + 1)
    else if d.month < 12 then Date(d.year, d.month + 1, 1)
    else Date(d.year + 1, 1, 1)
  }

  // ---------- The algorithm ----------

  /** Rust's `/` on integers truncates; the program first shifts a negative dividend, which makes it a floor. */
  function TruncDiv(a: int, b: int): int
    requires b > 0
  {
    if a >= 0 then a / b else -(-a / b)
  }

  /** Days before year `yoe` of an era. */
  function YearStart(yoe: int): int { 365 * yoe + yoe / 4 - yoe / 100 }

  /** Days before month `mp` of a March-based year. */
  function MonthStart(mp: int): int { (153 * mp + 2) / 5 }

  function YearOfEra(doe: int): int {
    (doe - doe / 1460 + doe / 36524 - doe / 146096) / 365
  }

  /** The March-based month that holds day `doy` of a year. */
  function MonthAt(doy: int): int { (5 * doy + 2) / 153 }

  /** The date part of `secs_to_ymdhms`, with the year before its cast to 32 bits. */
  function CivilFromDays(days: int): Date {
    var z := days + 719_468;
    var era := TruncDiv(if z >= 0 then z else z - 146_096, 146_097);
    var doe := z - era * 146_097;
    var yoe := YearOfEra(doe);
    var y := yoe + era * 400;
    var doy := doe - YearStart(yoe);
    var mp := MonthAt(doy);
    var d := doy - MonthStart(mp) + 1;
    var m := if mp < 10 then mp + 3 else mp - 9;
    Date(if m <= 2 then y + 1 else y, m, d)
  }

  /** The day count of `unix_from_civil`. */
  function DaysFromCivil(year: int, month: nat, day: nat): int {
    var y := if month <= 2 then year - 1 else year;
    var era := TruncDiv(if y >= 0 then y else y - 399, 400);
    var yoe := y - era * 400;
    var m := if month > 2 then month - 3 else month + 9;
    var doy := MonthStart(m) + day - 1;
    var doe := YearStart(yoe) + doy;
    era * 146_097 + doe - 719_468
  }

  // ---------- One 400-year era, with years starting in March ----------

  lemma FloorEra(z: int)
    ensures TruncDiv(if z >= 0 then z else z - 146_096, 146_097) == z / 146_097
  {
  }

  lemma FloorEraYears(y: int)
    ensures TruncDiv(if y >= 0 then y else y - 399, 400) == y / 400
  {
  }

  /** A day of the era as centuries, four-year cycles and days left over. */
  predicate EraParts(doe: int, c: int, q: int, s: int) {
    && doe == 36524 * c + 1461 * q + s
    && 0 <= c <= 3 && 0 <= q <= 24 && 0 <= s <= 1460
    && (q == 24 && c < 3 ==> s < 1460)
  }

  /** The year of a four-year cycle that holds its day `s`; the leap day belongs to the last one. */
  function YearOfCycle(s: int): int { if s == 1460 then 3 else s / 365 }

  lemma YearStartOfParts(c: int, q: int, t: int)
    requires 0 <= c && 0 <= q <= 24 && 0 <= t <= 3
    ensures YearStart(100 * c + 4 * q + t) == 36524 * c + 1461 * q + 365 * t
  {
    var y := 100 * c + 4 * q + t;
    assert y / 4 == 25 * c + q;
    assert y / 100 == c;
  }

  lemma YearOfEraOfParts(doe: int, c: int, q: int, s: int)
    requires EraParts(doe, c, q, s)
    ensures YearOfEra(doe) == 100 * c + 4 * q + YearOfCycle(s)
  {
    var e := if 24 * c + q + s >= 1460 then 1 else 0;
    assert doe / 1460 == 25 * c + q + e;
    assert doe / 36524 - doe / 146096 == c;
    assert doe - doe / 1460 + doe / 36524 - doe / 146096 == 365 * (100 * c + 4 * q) + (s - e);
  }

  /** The closed formula finds the year that contains a given day of the era. */
  lemma PartsOf(doe: int) returns (c: int, q: int, s: int)
    requires 0 <= doe < 146_097
    ensures EraParts(doe, c, q, s)
  {
    c := if doe == 146_096 then 3 else doe / 36524;
    var r := doe - 36524 * c;
    q := if r == 36524 then 24 else r / 1461;
    s := r - 1461 * q;
  }

  lemma YearOfEraCorrect(doe: int)
    requires 0 <= doe < 146_097
    ensures
      var yoe := YearOfEra(doe);
      && 0 <= yoe <= 399
      && YearStart(yoe) <= doe
      && (yoe < 399 ==> doe < YearStart(yoe + 1))
  {
    hide YearOfEra, YearStart;
    var c, q, s := PartsOf(doe);
    YearOfEraOfParts(doe, c, q, s);
    var t := YearOfCycle(s);
    YearStartOfParts(c, q, t);
    if t < 3 {
      YearStartOfParts(c, q, t + 1);
    } else if q < 24 {
      YearStartOfParts(c, q + 1, 0);
    } else {
      YearStartOfParts(c + 1, 0, 0);
    }
  }

  lemma MonthOfYearCorrect(doy: int)
    requires 0 <= doy <= 365
    ensures
      var mp := MonthAt(doy);
      && 0 <= mp <= 11
      && MonthStart(mp) <= doy
      && (mp < 11 ==> doy < MonthStart(mp + 1))
  {
  }

  lemma NextQuotients(y: int)
    ensures (y + 1) / 4 == if (y + 1) % 4 == 0 then y / 4 + 1 else y / 4
    ensures (y + 1) / 100 == if (y + 1) % 100 == 0 then y / 100 + 1 else y / 100
    ensures (y + 1) % 100 == 0 ==> (y + 1) % 4 == 0
  {
    var z := y + 1;
    assert z == 4 * (z / 4) + z % 4 && z == 100 * (z / 100) + z % 100;
    if z % 100 == 0 {
      assert z == 4 * (25 * (z / 100));
    }
  }

  lemma YearLength(yoe: int)
    requires 0 <= yoe <= 399
    ensures (if yoe == 399 then 146_097 else YearStart(yoe + 1)) - YearStart(yoe) ==
      if IsLeap(yoe + 1) then 366 else 365
  {
    if yoe < 399 {
      NextQuotients(yoe);
      assert (yoe + 1) % 400 == yoe + 1;
    }
  }

  lemma ModOfSum(k: int, r: int, m: int)
    requires m == 4 || m == 100 || m == 400
    requires 0 <= r < m
    ensures (m * k + r) % m == r
  {
    if m == 4 {
      assert (4 * k + r) % 4 == r;
    } else if m == 100 {
      assert (100 * k + r) % 100 == r;
    } else {
      assert (400 * k + r) % 400 == r;
    }
  }

  lemma LeapPeriod(era: int, y: int)
    ensures IsLeap(400 * era + y) == IsLeap(y)
  {
    ModOfSum(era + y / 400, y % 400, 400);
    ModOfSum(4 * era + y / 100, y % 100, 100);
    ModOfSum(100 * era + y / 4, y % 4, 4);
  }

  /** A date in March-based form: era, year of era, month from March, and day of month from zero. */
  datatype Marched = Marched(era: int, yoe: int, mp: int, dom: int)

  function MonthOf(mp: int): int { if mp < 10 then mp + 3 else mp - 9 }

  /** The calendar date of a March-based one. */
  function Unmarch(q: Marched): Date {
    Date(400 * q.era + q.yoe + (if q.mp >= 10 then 1 else 0), MonthOf(q.mp), q.dom + 1)
  }

  predicate ValidMarched(q: Marched) {
    && 0 <= q.yoe <= 399 && 0 <= q.mp <= 11
    && 0 <= q.dom < DaysInMonth(q.yoe + (if q.mp >= 10 then 1 else 0), MonthOf(q.mp))
  }

  function DayNumber(q: Marched): int {
    q.era * 146_097 + YearStart(q.yoe) + MonthStart(q.mp) + q.dom - 719_468
  }

  lemma MonthLength(mp: int, y: int)
    requires 0 <= mp <= 11
    ensures mp < 11 ==> MonthStart(mp + 1) - MonthStart(mp) == DaysInMonth(y, MonthOf(mp))
    ensures mp == 11 ==> MonthStart(mp) == 337
  {
  }

  /** Every day number has one March-based form, which is the one the algorithm finds. */
  lemma CivilDecompose(days: int) returns (q: Marched)
    ensures ValidMarched(q) && DayNumber(q) == days && CivilFromDays(days) == Unmarch(q)
  {
    hide YearOfEra, YearStart, MonthStart, MonthAt, TruncDiv;
    var z := days + 719_468;
    FloorEra(z);
    var era, doe := z / 146_097, z % 146_097;
    YearOfEraCorrect(doe);
    var yoe := YearOfEra(doe);
    YearLength(yoe);
    var doy := doe - YearStart(yoe);
    MonthOfYearCorrect(doy);
    var mp := MonthAt(doy);
    MonthLength(mp, yoe);
    q := Marched(era, yoe, mp, doy - MonthStart(mp));
  }

  lemma UnmarchValid(q: Marched)
    requires ValidMarched(q)
    ensures ValidDate(Unmarch(q))
  {
    LeapPeriod(q.era, q.yoe + if q.mp >= 10 then 1 else 0);
  }

  function March(d: Date): Marched
    requires 1 <= d.month
  {
    var y := if d.month <= 2 then d.year - 1 else d.year;
    Marched(y / 400, y % 400, if d.month > 2 then d.month - 3 else d.month + 9, d.day - 1)
  }

  lemma MarchOfUnmarch(q: Marched)
    requires ValidMarched(q)
    ensures March(Unmarch(q)) == q
  {
  }

  lemma UnmarchOfMarch(d: Date)
    requires ValidDate(d)
    ensures ValidMarched(March(d)) && Unmarch(March(d)) == d
  {
    var q := March(d);
    LeapPeriod(q.era, q.yoe + if q.mp >= 10 then 1 else 0);
  }

  lemma DaysFromCivilIsDayNumber(d: Date)
    requires ValidDate(d)
    ensures DaysFromCivil(d.year, d.month, d.day) == DayNumber(March(d))
  {
    var y := if d.month <= 2 then d.year - 1 else d.year;
    FloorEraYears(y);
    assert y - y / 400 * 400 == y % 400;
    hide TruncDiv, YearStart, MonthStart, ValidDate;
  }

  lemma YearStartMonotone(a: int, b: int)
    requires 0 <= a < b
    ensures YearStart(a + 1) <= YearStart(b)
  {
  }

  lemma MonthStartMonotone(a: int, b: int)
    requires 0 <= a < b
    ensures MonthStart(a + 1) <= MonthStart(b)
  {
  }

  lemma DayOfYearBounds(q: Marched)
    requires ValidMarched(q)
    ensures 0 <= MonthStart(q.mp) + q.dom
    ensures q.yoe < 399 ==> YearStart(q.yoe) + MonthStart(q.mp) + q.dom < YearStart(q.yoe + 1)
    ensures YearStart(q.yoe) + MonthStart(q.mp) + q.dom < 146_097
  {
    MonthLength(q.mp, q.yoe);
    YearLength(q.yoe);
    if q.mp < 11 {
      MonthStartMonotone(q.mp, 11);
    }
    if q.yoe < 399 {
      YearStartMonotone(q.yoe, 399);
    }
  }

  lemma SameEra(p: Marched, q: Marched)
    requires ValidMarched(p) && ValidMarched(q) && DayNumber(p) == DayNumber(q)
    ensures p.era == q.era
  {
    hide YearStart, MonthStart;
    DayOfYearBounds(p);
    DayOfYearBounds(q);
    YearStartNonNegative(p.yoe);
    YearStartNonNegative(q.yoe);
  }

  lemma YearStartNonNegative(yoe: int)
    requires 0 <= yoe
    ensures 0 <= YearStart(yoe)
  {
  }

  lemma EarlierYear(p: Marched, q: Marched)
    requires ValidMarched(p) && ValidMarched(q) && p.era == q.era && p.yoe < q.yoe
    ensures DayNumber(p) < DayNumber(q)
  {
    hide YearStart, MonthStart;
    DayOfYearBounds(p);
    DayOfYearBounds(q);
    YearStartMonotone(p.yoe, q.yoe);
  }

  lemma EarlierMonth(p: Marched, q: Marched)
    requires ValidMarched(p) && ValidMarched(q) && p.era == q.era && p.yoe == q.yoe && p.mp < q.mp
    ensures DayNumber(p) < DayNumber(q)
  {
    hide YearStart, MonthStart;
    MonthLength(p.mp, p.yoe + if p.mp >= 10 then 1 else 0);
    MonthStartMonotone(p.mp, q.mp);
  }

  /** Two March-based dates with the same day number are the same date. */
  lemma DayNumberInjective(p: Marched, q: Marched)
    requires ValidMarched(p) && ValidMarched(q) && DayNumber(p) == DayNumber(q)
    ensures p == q
  {
    hide YearStart, MonthStart;
    SameEra(p, q);
    if p.yoe < q.yoe {
      EarlierYear(p, q);
    } else if q.yoe < p.yoe {
      EarlierYear(q, p);
    } else if p.mp < q.mp {
      EarlierMonth(p, q);
    } else if q.mp < p.mp {
      EarlierMonth(q, p);
    }
  }

  // ---------- The date laws ----------

  /** Every day number, however far back or ahead, is a real Gregorian date and counts back to itself. */
  lemma CivilRoundTrip(days: int)
    ensures ValidDate(CivilFromDays(days))
    ensures var d := CivilFromDays(days); DaysFromCivil(d.year, d.month, d.day) == days
  {
    var q := CivilDecompose(days);
    UnmarchValid(q);
    MarchOfUnmarch(q);
    DaysFromCivilIsDayNumber(Unmarch(q));
  }

  /** Every Gregorian date is recovered from its day number. */
  lemma DaysRoundTrip(d: Date)
    requires ValidDate(d)
    ensures CivilFromDays(DaysFromCivil(d.year, d.month, d.day)) == d
  {
    UnmarchOfMarch(d);
    DaysFromCivilIsDayNumber(d);
    var q := CivilDecompose(DayNumber(March(d)));
    DayNumberInjective(q, March(d));
  }

  /** The day count follows the calendar one day at a time from 1 January 1970, by the leap-year rule. */
  lemma CivilAdvances(days: int)
    ensures CivilFromDays(0) == Date(1970, 1, 1)
    ensures CivilFromDays(days + 1) == NextDay(CivilFromDays(days))
  {
    hide CivilFromDays, DaysFromCivil;
    CivilEpoch();
    CivilRoundTrip(days);
    CivilSuccessor(CivilFromDays(days), days);
  }

  lemma CivilSuccessor(d: Date, days: int)
    requires ValidDate(d) && DaysFromCivil(d.year, d.month, d.day) == days
    ensures CivilFromDays(days + 1) == NextDay(d)
  {
    hide CivilFromDays, DaysFromCivil;
    NextDayCounts(d);
    DaysRoundTrip(NextDay(d));
  }

  lemma CivilEpoch()
    ensures CivilFromDays(0) == Date(1970, 1, 1)
  {
  }

  lemma NextDayCounts(d: Date)
    requires ValidDate(d)
    ensures ValidDate(NextDay(d))
    ensures var e := NextDay(d); DaysFromCivil(e.year, e.month, e.day) == DaysFromCivil(d.year, d.month, d.day) + 1
  {
    hide YearStart, MonthStart, DaysFromCivil;
    var e := NextDay(d);
    DaysFromCivilIsDayNumber(d);
    DaysFromCivilIsDayNumber(e);
    NextDayNumber(d);
  }

  lemma NextDayNumber(d: Date)
    requires ValidDate(d)
    ensures DayNumber(March(NextDay(d))) == DayNumber(March(d)) + 1
  {
    hide YearStart, MonthStart;
    var p, q := March(d), March(NextDay(d));
    if d.day == DaysInMonth(d.year, d.month) {
      MonthLength(p.mp, d.year);
      if d.month == 2 {
        NextMarchYear(p.era, p.yoe);
      }
    }
  }

  /** After the last day of February the March-based year moves on by one. */
  lemma NextMarchYear(era: int, yoe: int)
    requires 0 <= yoe <= 399
    ensures
      var y := 400 * era + yoe + 1;
      && y / 400 * 146_097 + YearStart(y % 400) == era * 146_097 + YearStart(yoe) + 337 + DaysInMonth(y, 2)
      && MonthStart(0) == 0
  {
    hide YearStart;
    var y := 400 * era + (yoe + 1);
    YearLength(yoe);
    LeapPeriod(era, yoe + 1);
    YearStartZero();
    if yoe == 399 {
      assert y == 400 * (era + 1) && y / 400 == era + 1 && y % 400 == 0;
    } else {
      assert y / 400 == era && y % 400 == yoe + 1;
    }
  }

  lemma YearStartZero()
    ensures YearStart(0) == 0
  {
  }
}
