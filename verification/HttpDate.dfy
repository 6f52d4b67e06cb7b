/**
 * The two closed forms from a Gregorian date to a Unix timestamp: `components_to_timestamp`
 * in crates/rv-http/src/rfc2616.rs and the one inside `parse_http_date` in
 * crates/rv-server/src/runtime.rs. Both are measured against a calendar that counts days.
 */
module HttpDate {
  const SECONDS_PER_DAY: int := 86400

  datatype Date = Date(year: int, month: int, day: int)

  datatype Time = Time(hour: int, min: int, sec: int)

  /** Integer division as the source's language does it: toward zero. */
  function TruncDiv(a: int, b: int): int
    requires b > 0
  {
    if a >= 0 then a / b else -((-a) / b)
  }

  // ---------------------------------------------------------------- the calendar

  predicate IsLeap(y: int) {
    (y % 4 == 0 && y % 100 != 0) || y % 400 == 0
  }

  function YearLength(y: int): int {
    if IsLeap(y) then 366 else 365
  }

  function DaysInMonth(y: int, m: int): int {
    if m == 2 then (if IsLeap(y) then 29 else 28)
    else if m == 4 || m == 6 || m == 9 || m == 11 then 30
    else 31
  }

  predicate IsDate(d: Date) {
    1 <= d.month <= 12 && 1 <= d.day <= DaysInMonth(d.year, d.month)
  }

  /** Days from the first of January 1970 to the first of January of `y`, counted year by year. */
  function YearStart(y: int): int
    decreases if y >= 1970 then y - 1970 else 1970 - y
  {
    if y == 1970 then 0
    else if y > 1970 then YearStart(y - 1) + YearLength(y - 1)
    else YearStart(y + 1) - YearLength(y)
  }

  /** Days in the first `m` - 1 months. */
  function MonthStart(y: int, m: int): int
    requires 1 <= m <= 13
    decreases m
  {
    if m == 1 then 0 else MonthStart(y, m - 1) + DaysInMonth(y, m - 1)
  }

  /** Days since the epoch. */
  function DayNumber(d: Date): int
    requires IsDate(d)
  {
    YearStart(d.year) + MonthStart(d.year, d.month) + d.day - 1
  }

  function NextDay(d: Date): (n: Date)
    requires IsDate(d)
    ensures IsDate(n)
  {
    if d.day < DaysInMonth(d.year, d.month) then d.(day := d.day + 1)
    else if d.month < 12 then Date(d.year, d.month + 1, 1)
    else Date(d.year + 1, 1, 1)
  }

  // ---------------------------------------------------------------- the two formulas

  /** The days of `components_to_timestamp`: years begin in March. */
  function MarchDays(d: Date): int {
    var y := if d.month <= 2 then d.year - 1 else d.year;
    var m := if d.month <= 2 then d.month + 12 else d.month;
    365 * y + TruncDiv(y, 4) - TruncDiv(y, 100) + TruncDiv(y, 400) + TruncDiv(153 * (m - 3) + 2, 5) + d.day - 719469
  }

  const MONTH_DAYS: seq<int> := [0, 31, 59, 90, 120, 151, 181, 212, 243, 273, 304, 334]

  function DaysFromYear(y: int): int {
    (y - 1970) * 365 + TruncDiv(y - 1969, 4) - TruncDiv(y - 1901, 100) + TruncDiv(y - 1601, 400)
  }

  /** The days of `parse_http_date`: a table of months and a correction for leap years. */
  function TableDays(d: Date): int
    requires 1 <= d.month <= 12
  {
    DaysFromYear(d.year) + MONTH_DAYS[d.month - 1] + d.day - 1 + if IsLeap(d.year) && d.month > 2 then 1 else 0
  }

  function Seconds(days: int, t: Time): int {
    days * SECONDS_PER_DAY + t.hour * 3600 + t.min * 60 + t.sec
  }

  // ---------------------------------------------------------------- against the calendar

  lemma YearStartNext(y: int)
    ensures YearStart(y + 1) == YearStart(y) + YearLength(y)
  {
  }

  /** Leap days before year `y`, up to a constant. */
  function LeapDays(y: int): int {
    (y - 1) / 4 - (y - 1) / 100 + (y - 1) / 400
  }

  lemma QuotientNext(y: int, k: int)
    requires k == 4 || k == 100 || k == 400
    ensures y / k == (y - 1) / k + if y % k == 0 then 1 else 0
  {
  }

  /** Multiples of 400 are multiples of 100, and those of 4, and so for what leaves 1. */
  lemma Residues(y: int)
    ensures y % 400 == 0 ==> y % 100 == 0
    ensures y % 100 == 0 ==> y % 4 == 0
    ensures y % 400 == 1 ==> y % 100 == 1
    ensures y % 100 == 1 ==> y % 4 == 1
  {
    var q, r := y / 400, y % 400;
    assert y == 400 * q + r;
    var s, t := y / 100, y % 100;
    assert y == 100 * s + t;
  }

  lemma LeapDaysNext(y: int)
    ensures LeapDays(y + 1) == LeapDays(y) + if IsLeap(y) then 1 else 0
  {
    QuotientNext(y, 4);
    QuotientNext(y, 100);
    QuotientNext(y, 400);
    Residues(y);
  }

  lemma {:induction false} YearStartClosed(y: int)
    ensures YearStart(y) == 365 * (y - 1970) + LeapDays(y) - 477
    decreases if y >= 1970 then y - 1970 else 1970 - y
  {
    if y > 1970 {
      YearStartClosed(y - 1);
      LeapDaysNext(y - 1);
    } else if y < 1970 {
      YearStartClosed(y + 1);
      LeapDaysNext(y);
    }
  }

  lemma MonthStartTable(y: int, m: int)
    requires 1 <= m <= 12
    ensures MonthStart(y, m) == MONTH_DAYS[m - 1] + if IsLeap(y) && m > 2 then 1 else 0
  {
    assert MonthStart(y, 2) == 31;
    assert MonthStart(y, 3) == 31 + DaysInMonth(y, 2);
    assert MonthStart(y, 4) == MonthStart(y, 3) + 31;
    assert MonthStart(y, 5) == MonthStart(y, 3) + 61;
    assert MonthStart(y, 6) == MonthStart(y, 3) + 92;
    assert MonthStart(y, 7) == MonthStart(y, 3) + 122;
    assert MonthStart(y, 8) == MonthStart(y, 3) + 153;
    assert MonthStart(y, 9) == MonthStart(y, 3) + 184;
    assert MonthStart(y, 10) == MonthStart(y, 3) + 214;
    assert MonthStart(y, 11) == MonthStart(y, 3) + 245;
    assert MonthStart(y, 12) == MonthStart(y, 3) + 275;
  }

  /** The days of the months from March to `m`, where 13 and 14 are the next January and February. */
  lemma MarchMonth(m: int)
    requires 3 <= m <= 14
    ensures TruncDiv(153 * (m - 3) + 2, 5) == if m <= 12 then MONTH_DAYS[m - 1] - 59 else if m == 13 then 306 else 337
  {
  }

  lemma MarchLeapDays(y: int)
    requires y >= 0
    ensures TruncDiv(y, 4) - TruncDiv(y, 100) + TruncDiv(y, 400) == LeapDays(y + 1)
  {
  }

  lemma MarchDaysRight(d: Date)
    requires IsDate(d) && (if d.month <= 2 then d.year >= 1 else d.year >= 0)
    ensures MarchDays(d) == DayNumber(d)
  {
    YearStartClosed(d.year);
    MonthStartTable(d.year, d.month);
    if d.month <= 2 {
      MarchLeapDays(d.year - 1);
      MarchMonth(d.month + 12);
    } else {
      MarchLeapDays(d.year);
      LeapDaysNext(d.year);
      MarchMonth(d.month);
    }
  }

  lemma BeforeYearZero()
    ensures LeapDays(0) == -1 && TruncDiv(-1, 4) == 0 && TruncDiv(-1, 100) == 0 && TruncDiv(-1, 400) == 0
  {
  }

  lemma MarchDaysYearZero(d: Date)
    requires IsDate(d) && d.month <= 2 && d.year == 0
    ensures MarchDays(d) == DayNumber(d) + 1
  {
    YearStartClosed(d.year);
    BeforeYearZero();
    assert d.month == 2 ==> MonthStart(d.year, 2) == 31;
    MarchMonth(d.month + 12);
  }

  /** The March formula is right for every date but January and February of year 0. */
  lemma MarchDaysExact(d: Date)
    requires IsDate(d) && d.year >= 0
    ensures MarchDays(d) == DayNumber(d) <==> d.year >= 1 || d.month > 2
  {
    if d.year >= 1 || d.month > 2 {
      MarchDaysRight(d);
    } else {
      MarchDaysYearZero(d);
    }
  }

  /** How much a truncated quotient exceeds the floor. */
  function Excess(a: int, k: int): int
    requires k > 0
  {
    if a < 0 && a % k != 0 then 1 else 0
  }

  lemma TruncDivExcess(a: int, k: int)
    requires k == 4 || k == 100 || k == 400
    ensures TruncDiv(a, k) == a / k + Excess(a, k)
  {
  }

  lemma ShiftedQuotients(y: int)
    ensures (y - 1969) / 4 == (y - 1) / 4 - 492
    ensures (y - 1901) / 100 == (y - 1) / 100 - 19
    ensures (y - 1601) / 400 == (y - 1) / 400 - 4
  {
  }

  /** How many days the table formula is ahead in a year. */
  function TableError(y: int): int {
    Excess(y - 1969, 4) - Excess(y - 1901, 100) + Excess(y - 1601, 400)
  }

  lemma TableDaysError(d: Date)
    requires IsDate(d)
    ensures TableDays(d) == DayNumber(d) + TableError(d.year)
  {
    MonthStartTable(d.year, d.month);
    DaysFromYearError(d.year);
  }

  lemma DaysFromYearError(y: int)
    ensures DaysFromYear(y) == YearStart(y) + TableError(y)
  {
    YearStartClosed(y);
    TruncDivExcess(y - 1969, 4);
    TruncDivExcess(y - 1901, 100);
    TruncDivExcess(y - 1601, 400);
    ShiftedQuotients(y);
  }

  lemma ShiftedBy4(y: int)
    ensures (y - 1969) % 4 == 0 <==> y % 4 == 1
  {
  }

  lemma ShiftedBy100(y: int)
    ensures (y - 1901) % 100 == 0 <==> y % 100 == 1
  {
  }

  lemma ShiftedBy400(y: int)
    ensures (y - 1601) % 400 == 0 <==> y % 400 == 1
  {
  }

  /** The years for which the table formula is right. */
  predicate TableYear(y: int) {
    if y >= 1969 then true
    else if y >= 1901 then y % 4 == 1
    else if y >= 1601 then y % 100 == 1 || y % 4 != 1
    else y % 400 == 1 || (y % 4 == 1 && y % 100 != 1)
  }

  lemma TableYearExact(y: int)
    ensures TableError(y) == 0 <==> TableYear(y)
    ensures -1 <= TableError(y) <= 1
  {
    ShiftedBy4(y);
    ShiftedBy100(y);
    ShiftedBy400(y);
    Residues(y);
  }

  /** The table formula is right for a date exactly when its year is a table year: all from 1969 on, some before. */
  lemma TableDaysExact(d: Date)
    requires IsDate(d)
    ensures TableDays(d) == DayNumber(d) <==> TableYear(d.year)
  {
    TableDaysError(d);
    TableYearExact(d.year);
  }

  /** A date in 1968 on which the two formulas differ by a day. */
  lemma FormulasDisagree()
    ensures IsDate(Date(1968, 7, 1)) && TableDays(Date(1968, 7, 1)) == MarchDays(Date(1968, 7, 1)) + 1
  {
  }

  /** The two formulas give the same timestamp exactly in the table years, and so always from 1969 on. */
  lemma FormulasAgree(d: Date, t: Time)
    requires IsDate(d) && d.year >= 1
    ensures Seconds(MarchDays(d), t) == Seconds(TableDays(d), t) <==> TableYear(d.year)
    ensures d.year >= 1969 ==> Seconds(MarchDays(d), t) == Seconds(TableDays(d), t) == Seconds(DayNumber(d), t)
  {
    MarchDaysExact(d);
    TableDaysExact(d);
  }

  lemma ZeroAtEpoch()
    ensures MarchDays(Date(1970, 1, 1)) == 0 == TableDays(Date(1970, 1, 1))
  {
  }

  /** The moment one second later: the day it is on and the time of day. */
  function NextSecond(days: int, t: Time): (int, Time) {
    if t.sec < 59 then (days, t.(sec := t.sec + 1))
    else if t.min < 59 then (days, Time(t.hour, t.min + 1, 0))
    else if t.hour < 23 then (days, Time(t.hour + 1, 0, 0))
    else (days + 1, Time(0, 0, 0))
  }

  /** The timestamp is zero at midnight of the epoch and grows by one with every second. */
  lemma SecondsExact(days: int, t: Time)
    requires t.sec <= 59 && t.min <= 59 && t.hour <= 23
    ensures Seconds(0, Time(0, 0, 0)) == 0
    ensures Seconds(NextSecond(days, t).0, NextSecond(days, t).1) == Seconds(days, t) + 1
  {
  }

  // ---------------------------------------------------------------- one day and the order of days

  lemma MonthsFillYear(y: int)
    ensures MonthStart(y, 13) == YearLength(y)
  {
    MonthStartTable(y, 12);
  }

  lemma NextDayNumber(d: Date)
    requires IsDate(d)
    ensures DayNumber(NextDay(d)) == DayNumber(d) + 1
  {
    YearStartNext(d.year);
    MonthsFillYear(d.year);
  }

  /**
   * From one calendar day to the next the March formula grows by exactly 86400 seconds, and
   * the table formula exactly when it is equally far ahead in the two days' years: within a
   * year, and always from 1969 on.
   */
  lemma OneDayLater(d: Date, t: Time)
    requires IsDate(d)
    ensures d.year >= 1 ==> Seconds(MarchDays(NextDay(d)), t) == Seconds(MarchDays(d), t) + SECONDS_PER_DAY
    ensures Seconds(TableDays(NextDay(d)), t) == Seconds(TableDays(d), t) + SECONDS_PER_DAY <==>
              TableError(d.year) == TableError(NextDay(d).year)
    ensures d.year >= 1969 ==> TableError(d.year) == TableError(NextDay(d).year)
  {
    NextDayNumber(d);
    TableDaysError(d);
    TableDaysError(NextDay(d));
    if d.year >= 1 {
      MarchDaysExact(d);
      MarchDaysExact(NextDay(d));
    }
  }

  predicate Before(a: Date, b: Date) {
    a.year < b.year || (a.year == b.year && (a.month < b.month || (a.month == b.month && a.day < b.day)))
  }

  lemma {:induction false} YearStartGrows(y: int, z: int)
    requires y <= z
    ensures YearStart(y) <= YearStart(z)
    decreases z - y
  {
    if y < z {
      YearStartGrows(y, z - 1);
      YearStartNext(z - 1);
    }
  }

  lemma {:induction false} MonthStartGrows(y: int, m: int, n: int)
    requires 1 <= m <= n <= 13
    ensures MonthStart(y, m) <= MonthStart(y, n)
    decreases n - m
  {
    if m < n {
      MonthStartGrows(y, m, n - 1);
    }
  }

  /** Within its year. */
  lemma DayInYear(d: Date)
    requires IsDate(d)
    ensures YearStart(d.year) <= DayNumber(d) < YearStart(d.year + 1)
  {
    MonthStartGrows(d.year, 1, d.month);
    MonthStartGrows(d.year, d.month + 1, 13);
    MonthsFillYear(d.year);
    YearStartNext(d.year);
  }

  lemma DaysInOrder(a: Date, b: Date)
    requires IsDate(a) && IsDate(b) && Before(a, b)
    ensures DayNumber(a) < DayNumber(b)
  {
    if a.year < b.year {
      DayInYear(a);
      DayInYear(b);
      YearStartGrows(a.year + 1, b.year);
    } else if a.month < b.month {
      MonthStartGrows(a.year, a.month + 1, b.month);
    }
  }

  predicate IsTime(t: Time) {
    0 <= t.hour < 24 && 0 <= t.min < 60 && 0 <= t.sec < 60
  }

  predicate Earlier(t: Time, u: Time) {
    t.hour < u.hour || (t.hour == u.hour && (t.min < u.min || (t.min == u.min && t.sec < u.sec)))
  }

  /** The first moment comes after the second in the calendar. */
  predicate After(a: Date, t: Time, b: Date, u: Time) {
    Before(b, a) || (b == a && Earlier(u, t))
  }

  /** Timestamps order dates and times lexicographically. */
  lemma SecondsInOrder(a: Date, t: Time, b: Date, u: Time)
    requires IsDate(a) && IsDate(b) && IsTime(t) && IsTime(u)
    ensures Seconds(DayNumber(a), t) < Seconds(DayNumber(b), u) <==> Before(a, b) || (a == b && Earlier(t, u))
  {
    if Before(a, b) {
      DaysInOrder(a, b);
    } else if a != b {
      DaysInOrder(b, a);
    }
  }

  /** How far the second moment lies behind the first, in seconds. */
  function Ahead(a: Date, t: Time, b: Date, u: Time): int
    requires IsDate(a) && IsDate(b)
  {
    Seconds(DayNumber(b), u) - Seconds(DayNumber(a), t)
  }

  /** What the difference of the table formula's errors adds to the first moment, in seconds. */
  function Skew(a: Date, b: Date): int {
    (TableError(a.year) - TableError(b.year)) * SECONDS_PER_DAY
  }

  /** The distance of the two moments lies between zero and the skew, so the table formula swaps them. */
  predicate Swapped(a: Date, t: Time, b: Date, u: Time)
    requires IsDate(a) && IsDate(b)
  {
    0 <= Ahead(a, t, b, u) < Skew(a, b) || Skew(a, b) <= Ahead(a, t, b, u) < 0
  }

  /**
   * The If-Modified-Since test. With the March formula `lastModified` is no later than `since`
   * exactly when it does not come after it in the calendar. With the table formula the test
   * says so exactly when the two moments are not closer than its errors in their years differ;
   * it is always right within one year, and from 1969 on.
   */
  lemma NotModifiedSince(lastModified: Date, t: Time, since: Date, u: Time)
    requires IsDate(lastModified) && IsDate(since) && IsTime(t) && IsTime(u)
    ensures lastModified.year >= 1 && since.year >= 1 ==>
              var says := Seconds(MarchDays(lastModified), t) <= Seconds(MarchDays(since), u);
              says <==> !After(lastModified, t, since, u)
    ensures (Seconds(TableDays(lastModified), t) <= Seconds(TableDays(since), u) <==> !After(lastModified, t, since, u))
            <==> !Swapped(lastModified, t, since, u)
    ensures TableError(lastModified.year) == TableError(since.year) ==> !Swapped(lastModified, t, since, u)
  {
    SecondsInOrder(since, u, lastModified, t);
    TableDaysError(lastModified);
    TableDaysError(since);
    if lastModified.year >= 1 && since.year >= 1 {
      MarchDaysExact(lastModified);
      MarchDaysExact(since);
    }
  }

  /** Modified on the first day of 1969 and asked about the last of 1968: taken for not modified. */
  lemma ComparisonFails()
    ensures var lm, since, midnight := Date(1969, 1, 1), Date(1968, 12, 31), Time(0, 0, 0);
            && IsDate(lm) && IsDate(since) && After(lm, midnight, since, midnight)
            && Seconds(TableDays(lm), midnight) <= Seconds(TableDays(since), midnight)
  {
  }
}
