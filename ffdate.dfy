/**
 * `rfc3339ToDate`, `pad` and `formatFriendFeedDate` of the browser client:
 * the groups the pattern captured become the arguments of `Date.UTC`, and
 * the date is shown as its day, the Spanish abbreviation of its month, and
 * its hour and minute, read on a host whose local time is UTC.
 */
module FriendFeedDate {
  import opened Wrappers
  import opened Rfc3339
  import opened JsDate
  import Bytes

  /** What is thrown when `pattern.exec` returns `null` and `m[1]` is read. */
  datatype JsError = TypeError

  function DigitValue(c: char): int { c as int - '0' as int }

  /** `Number(s)` for a string of decimal digits; `Number("")` is 0. */
  function StrValue(s: string): int
  {
    if s == [] then 0 else 10 * StrValue(s[..|s| - 1]) + DigitValue(s[|s| - 1])
  }

  lemma {:induction false} StrValueBound(s: string)
    requires AllDigitChars(s)
    ensures 0 <= StrValue(s) < Bytes.Pow10(|s|)
  {
    if s != [] {
      StrValueBound(s[..|s| - 1]);
    }
  }

  lemma TwoDigitsValue(s: string)
    requires |s| == 2
    ensures StrValue(s) == 10 * DigitValue(s[0]) + DigitValue(s[1])
  {
    var p := s[..1];
    assert p[..0] == [];
    assert StrValue(p) == DigitValue(s[0]);
    assert s[..|s| - 1] == p;
  }

  /** The seven numbers `rfc3339ToDate` passes to `Date.UTC`. */
  datatype UtcArgs = UtcArgs(year: int, month: int, date: int, hours: int, minutes: int, seconds: int, ms: int)

  /** `m[i] ? m[i] : 0` read as a number: an absent group, or an empty fraction, is 0. */
  function GroupValue(g: Option<string>): int
  {
    if g.Some? then StrValue(g.value) else 0
  }

  /** `offhour * 60 + offmin`. */
  function OffsetMinutes(o: Offset): int
  {
    StrValue(o.hours) * 60 + StrValue(o.minutes)
  }

  /**
   * The arguments of `Date.UTC`: absent groups are 0, the month is made
   * 0-based, the fraction digits count milliseconds, and a captured sign
   * moves the minutes by the offset. `offhour` and `offmin` are `Number`
   * objects, which are always truthy, so the guard tests the sign alone.
   */
  function Arguments(c: Captures): UtcArgs
  {
    var k := c.clock;
    var minute := if k.Some? then StrValue(k.value.minute) else 0;
    UtcArgs(
      StrValue(c.year),
      if c.month.Some? then StrValue(c.month.value) - 1 else 0,
      GroupValue(c.day),
      if k.Some? then StrValue(k.value.hour) else 0,
      if c.offset.None? then minute
      else if c.offset.value.sign == '+' then minute - OffsetMinutes(c.offset.value)
      else if c.offset.value.sign == '-' then minute + OffsetMinutes(c.offset.value)
      else minute,
      if k.Some? then StrValue(k.value.second) else 0,
      if k.Some? then GroupValue(k.value.fraction) else 0)
  }

  /** What a well-formed match holds, group by group. */
  lemma WellFormedGroups(c: Captures)
    ensures WellFormed(c) <==>
      && FourDigits(c.year)
      && Shaped(MonthGroup, c) && Shaped(DayGroup, c) && Shaped(ClockGroup, c)
      && Shaped(ZoneGroup, c) && Shaped(OffsetGroup, c)
  {
    assert ShapedFrom(MonthGroup, c) == (Shaped(MonthGroup, c) && ShapedFrom(DayGroup, c));
    assert ShapedFrom(DayGroup, c) == (Shaped(DayGroup, c) && ShapedFrom(ClockGroup, c));
    assert ShapedFrom(ClockGroup, c) == (Shaped(ClockGroup, c) && ShapedFrom(ZoneGroup, c));
    assert ShapedFrom(ZoneGroup, c) == (Shaped(ZoneGroup, c) && ShapedFrom(OffsetGroup, c));
  }

  lemma InstantMs(a: UtcArgs)
    ensures Instant(a) == Instant(a.(ms := 0)) + a.ms
  {
  }

  lemma InstantMinutes(a: UtcArgs, k: int)
    ensures Instant(a.(minutes := a.minutes + k)) == Instant(a) + k * MS_PER_MINUTE
  {
  }

  /** A two-digit group is worth less than 100. */
  lemma TwoDigitsBound(s: string)
    requires TwoDigits(s)
    ensures 0 <= StrValue(s) < 100
  {
    TwoDigitsValue(s);
  }

  /** The time `Date.UTC` computes from the arguments, before `TimeClip`. */
  function Instant(a: UtcArgs): int
  {
    UtcTime(a.year, a.month, a.date, a.hours, a.minutes, a.seconds, a.ms)
  }

  /** `new Date(v)` for a time value `v`: `TimeClip` once more, which keeps a clipped value. */
  function NewDate(v: TimeValue): (r: TimeValue)
    ensures (v.NaN? || -TIME_RANGE <= v.ms <= TIME_RANGE) ==> r == v
  {
    match v
    case NaN => NaN
    case Time(t) => TimeClip(t)
  }

  /** `rfc3339ToDate(val)`: a `TypeError` when the pattern does not match. */
  function Rfc3339ToDate(val: string): (r: Result<TimeValue, JsError>)
    ensures r.Err? <==> Match(val).None?
  {
    match Match(val)
    case None => Err(TypeError)
    case Some(c) => Ok(NewDate(TimeClip(Instant(Arguments(c)))))
  }

  const MONTHS: seq<string> := ["ene", "feb", "mar", "abr", "may", "jun", "jul", "ago", "sep", "oct", "nov", "dic"]

  function Digit(d: nat): char
    requires d < 10
  {
    ('0' as int + d) as char
  }

  /** The decimal numeral of `n`, as JavaScript converts a non-negative integer to a string. */
  function DecimalString(n: nat): (s: string)
    ensures |s| >= 1 && AllDigitChars(s) && StrValue(s) == n
    ensures |s| == 1 <==> n < 10
    ensures n < 100 ==> |s| <= 2
    ensures |s| > 1 ==> s[0] != '0'
  {
    if n < 10 then [Digit(n)]
    else
      var s := DecimalString(n / 10) + [Digit(n % 10)];
      assert s[..|s| - 1] == DecimalString(n / 10);
      s
  }

  /** JavaScript's string for an integer-valued number. */
  function NumberString(v: int): string
  {
    if v < 0 then "-" + DecimalString(-v) else DecimalString(v)
  }

  /** `pad(v)`: `"0"` in front exactly when `v < 10`, otherwise `v` as it is. */
  function Pad(v: int): string
  {
    if v < 10 then "0" + NumberString(v) else NumberString(v)
  }

  /** `pad` keeps the value and zero-pads below 10, so every value from 0 to 99 takes two digits. */
  lemma PadValue(v: nat)
    ensures AllDigitChars(Pad(v)) && StrValue(Pad(v)) == v
    ensures Pad(v)[0] == '0' <==> v < 10
    ensures v < 100 ==> |Pad(v)| == 2
  {
    var p := Pad(v);
    if v < 10 {
      assert p[..1] == "0" && p[..1][..0] == [];
    }
  }

  /** `pad` gives back a two-digit group from its value. */
  lemma PadOfTwoDigits(s: string)
    requires TwoDigits(s)
    ensures Pad(StrValue(s)) == s
  {
    TwoDigitsValue(s);
    var v := StrValue(s);
    PadValue(v);
    var p := Pad(v);
    TwoDigitsValue(p);
    assert DigitValue(p[0]) == DigitValue(s[0]) && DigitValue(p[1]) == DigitValue(s[1]);
  }

  /**
   * `formatFriendFeedDate(ffdate)`: day, `/`, the month's abbreviation,
   * `, `, hour and minute; an invalid date shows `NaN` and the month
   * `undefined`.
   */
  function FormatFriendFeedDate(ffdate: string): (r: Result<string, JsError>)
    ensures r.Err? <==> Match(ffdate).None?
  {
    match Rfc3339ToDate(ffdate)
    case Err(e) => Err(e)
    case Ok(NaN) => Ok("NaN/undefined, NaN:NaN")
    case Ok(Time(t)) =>
      Ok(DecimalString(DateFromTime(t)) + "/" + MONTHS[MonthFromTime(t)] + ", "
         + Pad(HourFromTime(t)) + ":" + Pad(MinFromTime(t)))
  }

  // ---------------------------------------------------------------------
  // Properties

  /** A `+` offset is subtracted from the local reading and a `-` offset added, whatever its digits. */
  lemma OffsetDirection(c: Captures)
    requires WellFormed(c) && c.offset.Some?
    ensures var local := c.(offset := None);
      && WellFormed(local)
      && var off: int := OffsetMinutes(c.offset.value);
      Instant(Arguments(c)) == Instant(Arguments(local)) + (if c.offset.value.sign == '+' then -off else off) * MS_PER_MINUTE
  {
    var local := c.(offset := None);
    WellFormedGroups(c);
    WellFormedGroups(local);
    var off: int := OffsetMinutes(c.offset.value);
    var k := if c.offset.value.sign == '+' then -off else off;
    var a := Arguments(local);
    assert Arguments(c) == a.(minutes := a.minutes + k);
    InstantMinutes(a, k);
  }

  /** The text of canonical captures is converted from exactly those captures. */
  lemma ToDateOfRender(c: Captures)
    requires Canonical(c)
    ensures Rfc3339ToDate(Render(c)) == Ok(NewDate(TimeClip(Instant(Arguments(c)))))
  {
    MatchRender(c);
  }

  /** Setting the `Z` group keeps captures canonical and leaves the arguments as they were. */
  lemma ZuluShape(c: Captures, x: Option<char>)
    requires Canonical(c) && (x.None? || x == Some('Z'))
    ensures Canonical(c.(zulu := x)) && Arguments(c.(zulu := x)) == Arguments(c)
  {
    WellFormedGroups(c);
    WellFormedGroups(c.(zulu := x));
  }

  /** The `Z` group does not change the result. */
  lemma ZuluIgnored(c: Captures)
    requires Canonical(c)
    ensures Rfc3339ToDate(Render(c.(zulu := Some('Z')))) == Rfc3339ToDate(Render(c.(zulu := None)))
  {
    ZuluShape(c, Some('Z'));
    ZuluShape(c, None);
    ToDateOfRender(c.(zulu := Some('Z')));
    ToDateOfRender(c.(zulu := None));
  }

  lemma DayFromYearBounds(y: int)
    requires 0 <= y <= 20000
    ensures -720000 <= DayFromYear(y) <= 6600000
  {
  }

  /** Apart from the milliseconds, arguments of these sizes stay between -1e14 and 1e15 ms of the epoch. */
  lemma InstantInRange(a: UtcArgs)
    requires 0 <= a.year <= 9999 && -1 <= a.month <= 98 && 0 <= a.date <= 99
    requires 0 <= a.hours <= 99 && -6039 <= a.minutes <= 6138 && 0 <= a.seconds <= 99
    ensures -100000000000000 <= Instant(a) - a.ms <= 1000000000000000
  {
    var yr := FullYear(a.year);
    var ym := yr + a.month / 12;
    DayFromYearBounds(ym);
    var day := MakeDay(yr, a.month, a.date);
    assert -720001 <= day <= 6600464;
  }

  lemma {:induction false} Pow10Monotone(a: nat, b: nat)
    requires a <= b
    ensures Bytes.Pow10(a) <= Bytes.Pow10(b)
    decreases b - a
  {
    if a < b {
      Pow10Monotone(a, b - 1);
    }
  }

  /** The matched groups bound the arguments. */
  lemma ArgumentsRange(c: Captures)
    requires WellFormed(c)
    requires c.clock.Some? && c.clock.value.fraction.Some? ==> |c.clock.value.fraction.value| <= 15
    ensures var a := Arguments(c);
      && 0 <= a.year <= 9999 && -1 <= a.month <= 98 && 0 <= a.date <= 99
      && 0 <= a.hours <= 99 && -6039 <= a.minutes <= 6138 && 0 <= a.seconds <= 99
      && 0 <= a.ms < 1000000000000000
  {
    WellFormedGroups(c);
    StrValueBound(c.year);
    if c.month.Some? { TwoDigitsBound(c.month.value); }
    if c.day.Some? { TwoDigitsBound(c.day.value); }
    if c.clock.Some? { ClockRange(c.clock.value); }
    if c.offset.Some? {
      TwoDigitsBound(c.offset.value.hours);
      TwoDigitsBound(c.offset.value.minutes);
    }
  }

  lemma ClockRange(k: Clock)
    requires ClockShaped(k)
    requires k.fraction.Some? ==> |k.fraction.value| <= 15
    ensures 0 <= StrValue(k.hour) <= 99 && 0 <= StrValue(k.minute) <= 99 && 0 <= StrValue(k.second) <= 99
    ensures 0 <= GroupValue(k.fraction) < 1000000000000000
  {
    TwoDigitsBound(k.hour);
    TwoDigitsBound(k.minute);
    TwoDigitsBound(k.second);
    if k.fraction.Some? {
      StrValueBound(k.fraction.value);
      Pow10Monotone(|k.fraction.value|, 15);
      assert Bytes.Pow10(15) == 1000000000000000;
    }
  }

  /** Every matched input gives a valid date unless its fraction has more than 15 digits. */
  lemma ValidDate(s: string)
    requires Match(s).Some?
    requires var c := Match(s).value; c.clock.Some? && c.clock.value.fraction.Some? ==> |c.clock.value.fraction.value| <= 15
    ensures Rfc3339ToDate(s).Ok? && Rfc3339ToDate(s).value.Time?
    ensures Rfc3339ToDate(s).value.ms == Instant(Arguments(Match(s).value))
  {
    var c := Match(s).value;
    ArgumentsRange(c);
    InstantInRange(Arguments(c));
  }

  /** The number of days in month `m` (0 to 11) of year `y`. */
  function MonthLength(y: int, m: int): int
    requires 0 <= m < 12
  {
    MonthStart(m + 1, IsLeap(y)) - MonthStart(m, IsLeap(y))
  }

  /**
   * A date without its day is read with day 0: the last day of the month
   * before, so a year alone is the 31st of December of the year before.
   */
  lemma MissingDay(s: string, c: Captures)
    requires Match(s) == Some(c)
    requires c.day.None? && c.clock.None? && c.offset.None?
    requires c.month.Some? ==> TwoDigits(c.month.value) && 1 <= StrValue(c.month.value) <= 12
    ensures var y := FullYear(StrValue(c.year));
      var m := if c.month.Some? then StrValue(c.month.value) - 1 else 0;
      var py := if m == 0 then y - 1 else y;
      var pm := if m == 0 then 11 else m - 1;
      && Rfc3339ToDate(s).Ok? && Rfc3339ToDate(s).value.Time?
      && var t := Rfc3339ToDate(s).value.ms;
      && YearFromTime(t) == py && MonthFromTime(t) == pm && DateFromTime(t) == MonthLength(py, pm)
      && HourFromTime(t) == 0 && MinFromTime(t) == 0
  {
    ValidDate(s);
    var a := Arguments(c);
    assert a == UtcArgs(StrValue(c.year), a.month, 0, 0, 0, 0, 0);
    DayZero(FullYear(a.year), a.month);
  }

  /** The instant of day 0 of month `m` of year `y` is the start of the last day of the month before. */
  lemma DayZero(y: int, m: int)
    requires 0 <= m < 12
    ensures var t := MakeDate(MakeDay(y, m, 0), MakeTime(0, 0, 0, 0));
      var py := if m == 0 then y - 1 else y;
      var pm := if m == 0 then 11 else m - 1;
      && YearFromTime(t) == py && MonthFromTime(t) == pm && DateFromTime(t) == MonthLength(py, pm)
      && HourFromTime(t) == 0 && MinFromTime(t) == 0
  {
    var py := if m == 0 then y - 1 else y;
    var pm := if m == 0 then 11 else m - 1;
    LastDayOfPreviousMonth(y, m);
    Breakdown(py, pm, MonthLength(py, pm), 0, 0, 0, 0);
  }

  /** Day 0 of month `m` is the last day of the month before it. */
  lemma LastDayOfPreviousMonth(y: int, m: int)
    requires 0 <= m < 12
    ensures var py := if m == 0 then y - 1 else y;
      var pm := if m == 0 then 11 else m - 1;
      MakeDay(y, m, 0) == MakeDay(py, pm, MonthLength(py, pm))
  {
    DivMulAdd(0, m, 12);
    var pm := if m == 0 then 11 else m - 1;
    DivMulAdd(0, pm, 12);
    if m == 0 {
      DayFromYearNext(y - 1);
    }
  }

  /** The conditions under which formatting shows the input's own fields. */
  predicate CalendarDateTime(c: Captures)
  {
    && WellFormed(c) && c.month.Some? && c.day.Some? && c.clock.Some? && c.offset.None?
    && TwoDigits(c.month.value) && TwoDigits(c.day.value) && ClockShaped(c.clock.value)
    && var m := StrValue(c.month.value) - 1;
    && 0 <= m < 12
    && 1 <= StrValue(c.day.value) <= MonthLength(FullYear(StrValue(c.year)), m)
    && StrValue(c.clock.value.hour) < 24 && StrValue(c.clock.value.minute) < 60
    && StrValue(c.clock.value.second) < 60
    && (c.clock.value.fraction.Some? ==> |c.clock.value.fraction.value| <= 3)
  }

  /** What is shown for a valid date. */
  lemma ShowsTime(s: string, t: int)
    requires Rfc3339ToDate(s) == Ok(Time(t))
    ensures FormatFriendFeedDate(s)
      == Ok(DecimalString(DateFromTime(t)) + "/" + MONTHS[MonthFromTime(t)] + ", " + Pad(HourFromTime(t)) + ":" + Pad(MinFromTime(t)))
  {
  }

  /**
   * A date and time that exist are shown with their own day (without a
   * leading zero), their month's abbreviation, and the hour and minute
   * digits as written.
   */
  lemma FormatShowsFields(c: Captures)
    requires CalendarDateTime(c)
    ensures FormatFriendFeedDate(Render(c))
      == Ok(DecimalString(StrValue(c.day.value)) + "/" + MONTHS[StrValue(c.month.value) - 1] + ", "
            + c.clock.value.hour + ":" + c.clock.value.minute)
  {
    MatchRender(c);
    FormatOfMatch(Render(c), c);
  }

  lemma FormatOfMatch(s: string, c: Captures)
    requires Match(s) == Some(c) && CalendarDateTime(c)
    ensures FormatFriendFeedDate(s)
      == Ok(DecimalString(StrValue(c.day.value)) + "/" + MONTHS[StrValue(c.month.value) - 1] + ", "
            + c.clock.value.hour + ":" + c.clock.value.minute)
  {
    var k := c.clock.value;
    var t := CalendarInstant(c);
    assert Rfc3339ToDate(s) == Ok(Time(t));
    PadOfTwoDigits(k.hour);
    PadOfTwoDigits(k.minute);
    ShowsTime(s, t);
  }

  /** The arguments `Date.UTC` gets for a date and time that exist. */
  lemma CalendarArguments(c: Captures)
    requires CalendarDateTime(c)
    ensures var a := Arguments(c);
      && a == UtcArgs(StrValue(c.year), StrValue(c.month.value) - 1, StrValue(c.day.value),
           StrValue(c.clock.value.hour), StrValue(c.clock.value.minute), StrValue(c.clock.value.second), a.ms)
      && 0 <= a.year <= 9999 && 0 <= a.hours && 0 <= a.minutes && 0 <= a.seconds && 0 <= a.ms < 1000
  {
    var k := c.clock.value;
    WellFormedGroups(c);
    StrValueBound(c.year);
    TwoDigitsBound(k.hour);
    TwoDigitsBound(k.minute);
    TwoDigitsBound(k.second);
    if k.fraction.Some? {
      StrValueBound(k.fraction.value);
      Pow10Monotone(|k.fraction.value|, 3);
    }
  }

  /** The instant of a date and time that exist holds their fields and lies in the range of time values. */
  lemma CalendarInstant(c: Captures) returns (t: int)
    requires CalendarDateTime(c)
    ensures t == Instant(Arguments(c)) && -TIME_RANGE <= t <= TIME_RANGE
    ensures DateFromTime(t) == StrValue(c.day.value) && MonthFromTime(t) == StrValue(c.month.value) - 1
    ensures HourFromTime(t) == StrValue(c.clock.value.hour) && MinFromTime(t) == StrValue(c.clock.value.minute)
  {
    CalendarArguments(c);
    var a := Arguments(c);
    InstantInRange(a);
    t := Instant(a);
    UtcTimeBreakdown(a.year, a.month, a.date, a.hours, a.minutes, a.seconds, a.ms);
  }

  /** The fraction digits are added to the time as that many milliseconds. */
  lemma FractionIsMilliseconds(c: Captures)
    requires WellFormed(c) && c.clock.Some? && c.clock.value.fraction.Some?
    ensures var whole := c.(clock := Some(c.clock.value.(fraction := None)));
      && WellFormed(whole)
      && Instant(Arguments(c)) == Instant(Arguments(whole)) + StrValue(c.clock.value.fraction.value)
  {
    var whole := c.(clock := Some(c.clock.value.(fraction := None)));
    WellFormedGroups(c);
    WellFormedGroups(whole);
    var a := Arguments(c);
    assert Arguments(whole) == a.(ms := 0);
    InstantMs(a);
  }

  lemma {:induction false} LeadingZerosValue(z: string, f: string)
    requires AllDigitChars(f) && forall i :: 0 <= i < |z| ==> z[i] == '0'
    ensures AllDigitChars(z + f) && StrValue(z + f) == StrValue(f)
    decreases |f|
  {
    var s := z + f;
    if f == [] {
      assert s == z;
      ZerosValue(z);
    } else {
      var init := f[..|f| - 1];
      assert s[..|s| - 1] == z + init;
      LeadingZerosValue(z, init);
    }
  }

  lemma {:induction false} ZerosValue(z: string)
    requires forall i :: 0 <= i < |z| ==> z[i] == '0'
    ensures AllDigitChars(z) && StrValue(z) == 0
    decreases |z|
  {
    if z != [] {
      ZerosValue(z[..|z| - 1]);
    }
  }

  /** Fraction digits count milliseconds, not a fraction of a second: `.5` reads as `.005`. */
  lemma FractionLeadingZeros(c: Captures, zeros: string)
    requires Canonical(c) && c.clock.Some? && c.clock.value.fraction.Some?
    requires forall i :: 0 <= i < |zeros| ==> zeros[i] == '0'
    ensures var f := c.clock.value.fraction.value;
      var padded := c.(clock := Some(c.clock.value.(fraction := Some(zeros + f))));
      && Canonical(padded)
      && Rfc3339ToDate(Render(padded)) == Rfc3339ToDate(Render(c))
  {
    var f := c.clock.value.fraction.value;
    var padded := c.(clock := Some(c.clock.value.(fraction := Some(zeros + f))));
    WellFormedGroups(c);
    LeadingZerosValue(zeros, f);
    WellFormedGroups(padded);
    ToDateOfRender(c);
    ToDateOfRender(padded);
    assert Arguments(padded) == Arguments(c);
  }

  /** A fraction worth at least 8.75e15 ms takes any date out of the range of time values. */
  lemma HugeFractionIsNaN(s: string, c: Captures)
    requires Match(s) == Some(c)
    requires c.clock.Some? && c.clock.value.fraction.Some?
    requires StrValue(c.clock.value.fraction.value) >= 8750000000000000
    ensures Rfc3339ToDate(s) == Ok(NaN)
    ensures FormatFriendFeedDate(s) == Ok("NaN/undefined, NaN:NaN")
  {
    var whole := c.(clock := Some(c.clock.value.(fraction := None)));
    FractionIsMilliseconds(c);
    ArgumentsRange(whole);
    var a := Arguments(whole);
    assert a.ms == 0;
    InstantInRange(a);
    assert Instant(Arguments(c)) > TIME_RANGE;
  }
}
