/**
 * The time arithmetic of ECMAScript 5.1 (ECMA-262, section 15.9.1) that
 * `Date.UTC` and the `getDate`/`getMonth`/`getHours`/`getMinutes` getters
 * use, on integers. A time value counts milliseconds from 1970-01-01T00:00Z;
 * every division below has a positive divisor, so Dafny's `/` and `%` are
 * the standard's `floor` and `modulo`.
 */
module JsDate {
  const MS_PER_SECOND: int := 1000
  const MS_PER_MINUTE: int := 60000
  const MS_PER_HOUR: int := 3600000
  const MS_PER_DAY: int := 86400000

  /** The largest magnitude a time value may have (section 15.9.1.1): 8.64e15 ms. */
  const TIME_RANGE: int := 8640000000000000

  /** A time value, or the NaN of an invalid date. */
  datatype TimeValue = Time(ms: int) | NaN

  function Day(t: int): int { t / MS_PER_DAY }

  predicate IsLeap(y: int) { y % 4 == 0 && (y % 100 != 0 || y % 400 == 0) }

  function DaysInYear(y: int): int { if IsLeap(y) then 366 else 365 }

  /** The day number of the first day of year `y`. */
  function DayFromYear(y: int): int
  {
    365 * (y - 1970) + (y - 1969) / 4 - (y - 1901) / 100 + (y - 1601) / 400
  }

  function TimeFromYear(y: int): int { MS_PER_DAY * DayFromYear(y) }

  /** Year `y` holds exactly `DaysInYear(y)` days. */
  lemma DayFromYearNext(y: int)
    ensures DayFromYear(y + 1) == DayFromYear(y) + DaysInYear(y)
  {
    FloorStep(y - 1969, 4, 492);
    FloorStep(y - 1901, 100, 19);
    FloorStep(y - 1601, 400, 4);
    var leap := if IsLeap(y) then 1 else 0;
    var step4 := if y % 4 == 0 then 1 else 0;
    var step100 := if y % 100 == 0 then 1 else 0;
    var step400 := if y % 400 == 0 then 1 else 0;
    assert leap == step4 - step100 + step400;
  }

  /** `floor(a / k)` grows by one exactly when `a + 1` is a multiple of `k`, that is when `a + 1 + j * k` is. */
  lemma FloorStep(a: int, k: int, j: int)
    requires k > 0
    ensures (a + 1) / k == a / k + (if (a + 1 + j * k) % k == 0 then 1 else 0)
  {
    var q := a / k;
    var r := a % k;
    assert a == q * k + r;
    if r + 1 < k {
      DivMulAdd(q, r + 1, k);
      DivMulAdd(q + j, r + 1, k);
      assert a + 1 + j * k == (q + j) * k + r + 1;
    } else {
      DivMulAdd(q + 1, 0, k);
      DivMulAdd(q + 1 + j, 0, k);
      assert a + 1 == (q + 1) * k + 0;
      assert a + 1 + j * k == (q + 1 + j) * k + 0;
    }
  }

  lemma {:induction false} DayFromYearMonotone(a: int, b: int)
    requires a < b
    ensures DayFromYear(a) < DayFromYear(b)
    decreases b - a
  {
    DayFromYearNext(a);
    if a + 1 < b {
      DayFromYearMonotone(a + 1, b);
    }
  }

  function YearUp(y: int, d: int): (r: int)
    requires DayFromYear(y) <= d
    ensures y <= r && DayFromYear(r) <= d < DayFromYear(r + 1)
    decreases d - DayFromYear(y)
  {
    DayFromYearNext(y);
    if d < DayFromYear(y + 1) then y else YearUp(y + 1, d)
  }

  function YearDown(y: int, d: int): (r: int)
    requires d < DayFromYear(y + 1)
    ensures r <= y && DayFromYear(r) <= d < DayFromYear(r + 1)
    decreases DayFromYear(y + 1) - d
  {
    DayFromYearNext(y);
    if DayFromYear(y) <= d then y else YearDown(y - 1, d)
  }

  /** The year that day number `d` falls in. */
  function YearFromDay(d: int): (y: int)
    ensures DayFromYear(y) <= d < DayFromYear(y + 1)
  {
    if 0 <= d then YearUp(1970, d) else YearDown(1969, d)
  }

  /** A day falls in exactly one year. */
  lemma YearFromDayUnique(d: int, y: int)
    requires DayFromYear(y) <= d < DayFromYear(y + 1)
    ensures YearFromDay(d) == y
  {
    var r := YearFromDay(d);
    if r + 1 < y {
      DayFromYearMonotone(r + 1, y);
    } else if y + 1 < r {
      DayFromYearMonotone(y + 1, r);
    }
  }

  /** `YearFromTime` (section 15.9.1.3). */
  function YearFromTime(t: int): int { YearFromDay(Day(t)) }

  /** `YearFromTime(t)` is the largest `y` with `TimeFromYear(y) <= t`. */
  lemma YearFromTimeLargest(t: int, y: int)
    ensures TimeFromYear(y) <= t <==> y <= YearFromTime(t)
  {
    var r := YearFromTime(t);
    ScaledBelow(DayFromYear(y), t, MS_PER_DAY);
    if y < r {
      DayFromYearMonotone(y, r);
    } else if r + 1 < y {
      DayFromYearMonotone(r + 1, y);
    }
  }

  predicate InLeapYear(t: int) { IsLeap(YearFromTime(t)) }

  function DayWithinYear(t: int): (n: int)
    ensures 0 <= n < DaysInYear(YearFromTime(t))
  {
    DayFromYearNext(YearFromTime(t));
    Day(t) - DayFromYear(YearFromTime(t))
  }

  /** The day within the year on which month `m` (0 to 11, or 12 for the year's end) starts. */
  function MonthStart(m: int, leap: bool): int
    requires 0 <= m <= 12
  {
    var l := if leap then 1 else 0;
    if m == 0 then 0
    else if m == 1 then 31
    else if m == 2 then 59 + l
    else if m == 3 then 90 + l
    else if m == 4 then 120 + l
    else if m == 5 then 151 + l
    else if m == 6 then 181 + l
    else if m == 7 then 212 + l
    else if m == 8 then 243 + l
    else if m == 9 then 273 + l
    else if m == 10 then 304 + l
    else if m == 11 then 334 + l
    else 365 + l
  }

  lemma MonthStartIncreasing(a: int, b: int, leap: bool)
    requires 0 <= a < b <= 12
    ensures MonthStart(a, leap) < MonthStart(b, leap)
  {
  }

  /** The month holding day `n` of a year. */
  function MonthOfDay(n: int, leap: bool): (m: int)
    requires 0 <= n < MonthStart(12, leap)
    ensures 0 <= m < 12 && MonthStart(m, leap) <= n < MonthStart(m + 1, leap)
  {
    if n < MonthStart(1, leap) then 0
    else if n < MonthStart(2, leap) then 1
    else if n < MonthStart(3, leap) then 2
    else if n < MonthStart(4, leap) then 3
    else if n < MonthStart(5, leap) then 4
    else if n < MonthStart(6, leap) then 5
    else if n < MonthStart(7, leap) then 6
    else if n < MonthStart(8, leap) then 7
    else if n < MonthStart(9, leap) then 8
    else if n < MonthStart(10, leap) then 9
    else if n < MonthStart(11, leap) then 10
    else 11
  }

  /** A day of the year falls in exactly one month. */
  lemma MonthOfDayUnique(n: int, leap: bool, m: int)
    requires 0 <= m < 12 && MonthStart(m, leap) <= n < MonthStart(m + 1, leap)
    ensures MonthOfDay(n, leap) == m
  {
    var r := MonthOfDay(n, leap);
    if r < m {
      MonthStartIncreasing(r + 1, m, leap);
    } else if m < r {
      MonthStartIncreasing(m + 1, r, leap);
    }
  }

  /** `MonthFromTime` (section 15.9.1.4): 0 for January to 11 for December. */
  function MonthFromTime(t: int): (m: int)
    ensures 0 <= m < 12
  {
    MonthOfDay(DayWithinYear(t), InLeapYear(t))
  }

  /** `DateFromTime` (section 15.9.1.5): the day of the month, from 1. */
  function DateFromTime(t: int): (dt: int)
    ensures 1 <= dt <= MonthStart(MonthFromTime(t) + 1, InLeapYear(t)) - MonthStart(MonthFromTime(t), InLeapYear(t))
  {
    DayWithinYear(t) - MonthStart(MonthFromTime(t), InLeapYear(t)) + 1
  }

  /** `HourFromTime` (section 15.9.1.10). */
  function HourFromTime(t: int): (h: int)
    ensures 0 <= h < 24
  {
    (t / MS_PER_HOUR) % 24
  }

  /** `MinFromTime` (section 15.9.1.10). */
  function MinFromTime(t: int): (m: int)
    ensures 0 <= m < 60
  {
    (t / MS_PER_MINUTE) % 60
  }

  /** `MakeTime` (section 15.9.1.11) on integer arguments. */
  function MakeTime(hour: int, min: int, sec: int, ms: int): int
  {
    hour * MS_PER_HOUR + min * MS_PER_MINUTE + sec * MS_PER_SECOND + ms
  }

  /**
   * `MakeDay` (section 15.9.1.12) on integer arguments: the first day of
   * month `month % 12` of year `year + month / 12`, moved by `date - 1` days.
   */
  function MakeDay(year: int, month: int, date: int): int
  {
    var ym := year + month / 12;
    var mn := month % 12;
    DayFromYear(ym) + MonthStart(mn, IsLeap(ym)) + date - 1
  }

  /** `MakeDate` (section 15.9.1.13). */
  function MakeDate(day: int, time: int): int { day * MS_PER_DAY + time }

  /** `TimeClip` (section 15.9.1.14) on an integer. */
  function TimeClip(t: int): (v: TimeValue)
    ensures v.Time? <==> -TIME_RANGE <= t <= TIME_RANGE
    ensures v.Time? ==> v.ms == t
  {
    if t < -TIME_RANGE || TIME_RANGE < t then NaN else Time(t)
  }

  /**
   * `Date.UTC(year, month, date, hours, minutes, seconds, ms)` (section
   * 15.9.4.3) with every argument given: a year from 0 to 99 means 1900 to 1999.
   */
  function DateUtc(year: int, month: int, date: int, hours: int, minutes: int, seconds: int, ms: int): TimeValue
  {
    TimeClip(UtcTime(year, month, date, hours, minutes, seconds, ms))
  }

  /** The time `Date.UTC` computes before `TimeClip`. */
  function UtcTime(year: int, month: int, date: int, hours: int, minutes: int, seconds: int, ms: int): int
  {
    MakeDate(MakeDay(FullYear(year), month, date), MakeTime(hours, minutes, seconds, ms))
  }

  /** The year `Date.UTC` uses: 0 to 99 stand for 1900 to 1999. */
  function FullYear(year: int): int { if 0 <= year <= 99 then 1900 + year else year }

  // ---------------------------------------------------------------------
  // Properties

  lemma {:induction false} MulAtLeast(x: int, k: int)
    requires x >= 1 && k > 0
    ensures x * k >= k
    decreases x
  {
    if x > 1 {
      MulAtLeast(x - 1, k);
      assert x * k == (x - 1) * k + k;
    }
  }

  /** A multiple of `k` is at most `t` exactly when its factor is at most `t / k`. */
  lemma ScaledBelow(x: int, t: int, k: int)
    requires k > 0
    ensures k * x <= t <==> x <= t / k
  {
    var q := t / k;
    assert t == q * k + t % k;
    if x < q {
      MulAtLeast(q - x, k);
      assert k * x == q * k - (q - x) * k;
    } else if q < x {
      MulAtLeast(x - q, k);
      assert k * x == q * k + (x - q) * k;
    }
  }

  /** Floor division by `k` undoes multiplication by `k`, leaving the remainder. */
  lemma DivMulAdd(q: int, r: int, k: int)
    requires 0 <= r < k
    ensures (q * k + r) / k == q && (q * k + r) % k == r
  {
    var n := q * k + r;
    var q' := n / k;
    var r' := n % k;
    assert n == q' * k + r';
    assert (q - q') * k == r' - r;
    if q' < q {
      MulAtLeast(q - q', k);
    } else if q < q' {
      MulAtLeast(q' - q, k);
    }
  }

  /**
   * `MakeDay` finds what the standard asks for: its day 1 of month `mn` of
   * year `ym` lies in year `ym`, month `mn`, and is date 1 of it.
   */
  lemma MakeDayFirst(ym: int, mn: int)
    requires 0 <= mn < 12
    ensures var t := MakeDate(MakeDay(ym, mn, 1), 0);
      YearFromTime(t) == ym && MonthFromTime(t) == mn && DateFromTime(t) == 1
  {
    Breakdown(ym, mn, 1, 0, 0, 0, 0);
  }

  /** Months beyond 11 carry into the year: month 12 of one year is January of the next. */
  lemma MakeDayCarries(year: int, month: int, date: int)
    ensures MakeDay(year, month, date) == MakeDay(year + month / 12, month % 12, date)
  {
    DivMulAdd(0, month % 12, 12);
  }

  /**
   * The getters read back the fields a time value was made from, for a date
   * that exists and a time of day within the day.
   */
  lemma Breakdown(y: int, m: int, dt: int, h: int, min: int, s: int, ms: int)
    requires 0 <= m < 12 && 1 <= dt <= MonthStart(m + 1, IsLeap(y)) - MonthStart(m, IsLeap(y))
    requires 0 <= h < 24 && 0 <= min < 60 && 0 <= s < 60 && 0 <= ms < 1000
    ensures var t := MakeDate(MakeDay(y, m, dt), MakeTime(h, min, s, ms));
      && YearFromTime(t) == y && MonthFromTime(t) == m && DateFromTime(t) == dt
      && HourFromTime(t) == h && MinFromTime(t) == min
  {
    var day := MakeDay(y, m, dt);
    var time := MakeTime(h, min, s, ms);
    var t := MakeDate(day, time);
    DivMulAdd(day, time, MS_PER_DAY);
    assert Day(t) == day;
    DayBreakdown(y, m, dt);
    assert YearFromTime(t) == y;
    var n := DayWithinYear(t);
    assert n == MonthStart(m, IsLeap(y)) + dt - 1;
    MonthOfDayUnique(n, IsLeap(y), m);
    assert MonthFromTime(t) == m;
    TimeBreakdown(day, h, min, s, ms);
  }

  /** `Date.UTC` on the fields of an existing date and time gives back those fields. */
  lemma UtcTimeBreakdown(year: int, m: int, dt: int, h: int, min: int, s: int, ms: int)
    requires 0 <= m < 12
    requires 1 <= dt <= MonthStart(m + 1, IsLeap(FullYear(year))) - MonthStart(m, IsLeap(FullYear(year)))
    requires 0 <= h < 24 && 0 <= min < 60 && 0 <= s < 60 && 0 <= ms < 1000
    ensures var t := UtcTime(year, m, dt, h, min, s, ms);
      && YearFromTime(t) == FullYear(year) && MonthFromTime(t) == m && DateFromTime(t) == dt
      && HourFromTime(t) == h && MinFromTime(t) == min
  {
    Breakdown(FullYear(year), m, dt, h, min, s, ms);
  }

  /** The day a date was made from lies in its year and month, on its date. */
  lemma DayBreakdown(y: int, m: int, dt: int)
    requires 0 <= m < 12 && 1 <= dt <= MonthStart(m + 1, IsLeap(y)) - MonthStart(m, IsLeap(y))
    ensures var day := MakeDay(y, m, dt);
      && YearFromDay(day) == y
      && day - DayFromYear(y) == MonthStart(m, IsLeap(y)) + dt - 1
  {
    var day := MakeDay(y, m, dt);
    DivMulAdd(y, m, 12);
    DivMulAdd(0, m, 12);
    assert day == DayFromYear(y) + MonthStart(m, IsLeap(y)) + dt - 1;
    if m + 1 < 12 {
      MonthStartIncreasing(m + 1, 12, IsLeap(y));
    }
    DayFromYearNext(y);
    YearFromDayUnique(day, y);
  }

  /** The hour and minute of a time made within day `day`. */
  lemma TimeBreakdown(day: int, h: int, min: int, s: int, ms: int)
    requires 0 <= h < 24 && 0 <= min < 60 && 0 <= s < 60 && 0 <= ms < 1000
    ensures var t := MakeDate(day, MakeTime(h, min, s, ms));
      HourFromTime(t) == h && MinFromTime(t) == min
  {
    var t := MakeDate(day, MakeTime(h, min, s, ms));
    var hours := day * 24 + h;
    assert t == hours * MS_PER_HOUR + (min * MS_PER_MINUTE + s * MS_PER_SECOND + ms);
    DivMulAdd(hours, min * MS_PER_MINUTE + s * MS_PER_SECOND + ms, MS_PER_HOUR);
    DivMulAdd(day, h, 24);
    var minutes := hours * 60 + min;
    assert t == minutes * MS_PER_MINUTE + (s * MS_PER_SECOND + ms);
    DivMulAdd(minutes, s * MS_PER_SECOND + ms, MS_PER_MINUTE);
    DivMulAdd(hours, min, 60);
  }
}
