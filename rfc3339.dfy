/**
 * The regular expression `rfc3339ToDate` matches its input against:
 *
 *   ^(\d{4})(?:-(\d{2}))?(?:-(\d{2}))?(?:[Tt](\d{2}):(\d{2}):(\d{2})(?:\.(\d*))?)?([Zz])?(?:([+-])(\d{2}):(\d{2}))?$
 *
 * matched with the backtracking order of ECMAScript regular expressions: an
 * optional group is first tried present, then absent, and `\d*` first takes
 * every digit it can, then one fewer, down to none. Each stage below takes
 * the rest of the input and the groups captured so far and returns the
 * captures of the first complete match, if any.
 */
module Rfc3339 {
  import opened Wrappers

  predicate IsDigitChar(c: char) { '0' <= c <= '9' }

  predicate AllDigitChars(s: string) { forall i :: 0 <= i < |s| ==> IsDigitChar(s[i]) }

  /** The time-of-day group; `separator` is the `T` or `t` it starts with. */
  datatype Clock = Clock(separator: char, hour: string, minute: string, second: string, fraction: Option<string>)

  datatype Offset = Offset(sign: char, hours: string, minutes: string)

  /** Groups 1 to 11 of the match (`undefined` is `None`), the time-of-day ones gathered in `clock`. */
  datatype Captures = Captures(year: string, month: Option<string>, day: Option<string>,
                               clock: Option<Clock>, zulu: Option<char>, offset: Option<Offset>)

  predicate TwoDigits(s: string) { |s| == 2 && IsDigitChar(s[0]) && IsDigitChar(s[1]) }

  predicate ClockShaped(c: Clock)
  {
    && (c.separator == 'T' || c.separator == 't')
    && TwoDigits(c.hour) && TwoDigits(c.minute) && TwoDigits(c.second)
    && (c.fraction.Some? ==> AllDigitChars(c.fraction.value))
  }

  predicate OffsetShaped(o: Offset)
  {
    (o.sign == '+' || o.sign == '-') && TwoDigits(o.hours) && TwoDigits(o.minutes)
  }

  /** The optional groups of the pattern after the year, in order; the fraction is part of the clock. */
  datatype Group = MonthGroup | DayGroup | ClockGroup | ZoneGroup | OffsetGroup

  function Rank(g: Group): nat
  {
    match g
    case OffsetGroup => 0
    case ZoneGroup => 1
    case ClockGroup => 4
    case DayGroup => 5
    case MonthGroup => 6
  }

  function Next(g: Group): Group
    requires g != OffsetGroup
  {
    match g
    case MonthGroup => DayGroup
    case DayGroup => ClockGroup
    case ClockGroup => ZoneGroup
    case ZoneGroup => OffsetGroup
  }

  /** `c` with group `g` and every later group unset: the groups matched before `g`. */
  function Before(c: Captures, g: Group): Captures
  {
    match g
    case MonthGroup => c.(month := None, day := None, clock := None, zulu := None, offset := None)
    case DayGroup => c.(day := None, clock := None, zulu := None, offset := None)
    case ClockGroup => c.(clock := None, zulu := None, offset := None)
    case ZoneGroup => c.(zulu := None, offset := None)
    case OffsetGroup => c.(offset := None)
  }

  // ---------------------------------------------------------------------
  // The text each group matched

  function DashPart(g: Option<string>): string { if g.Some? then "-" + g.value else "" }

  function ClockPart(g: Option<Clock>): string
  {
    if g.None? then ""
    else
      var c := g.value;
      [c.separator] + c.hour + ":" + c.minute + ":" + c.second
        + (if c.fraction.Some? then "." + c.fraction.value else "")
  }

  function OffsetPart(g: Option<Offset>): string
  {
    if g.Some? then [g.value.sign] + g.value.hours + ":" + g.value.minutes else ""
  }

  function Part(g: Group, c: Captures): string
  {
    match g
    case MonthGroup => DashPart(c.month)
    case DayGroup => DashPart(c.day)
    case ClockGroup => ClockPart(c.clock)
    case ZoneGroup => if c.zulu.Some? then [c.zulu.value] else ""
    case OffsetGroup => OffsetPart(c.offset)
  }

  /** What group `g` and the later groups matched. */
  function TextFrom(g: Group, c: Captures): string
    decreases Rank(g)
  {
    if g == OffsetGroup then Part(g, c) else Part(g, c) + TextFrom(Next(g), c)
  }

  /** The input a match with these captures consumed. */
  function Render(c: Captures): string { c.year + TextFrom(MonthGroup, c) }

  /** What group `g` can hold. */
  predicate Shaped(g: Group, c: Captures)
  {
    match g
    case MonthGroup => c.month.Some? ==> TwoDigits(c.month.value)
    case DayGroup => c.day.Some? ==> TwoDigits(c.day.value)
    case ClockGroup => c.clock.Some? ==> ClockShaped(c.clock.value)
    case ZoneGroup => c.zulu.Some? ==> c.zulu.value == 'Z' || c.zulu.value == 'z'
    case OffsetGroup => c.offset.Some? ==> OffsetShaped(c.offset.value)
  }

  predicate ShapedFrom(g: Group, c: Captures)
    decreases Rank(g)
  {
    Shaped(g, c) && (g != OffsetGroup ==> ShapedFrom(Next(g), c))
  }

  predicate FourDigits(s: string)
  {
    |s| == 4 && IsDigitChar(s[0]) && IsDigitChar(s[1]) && IsDigitChar(s[2]) && IsDigitChar(s[3])
  }

  /** What the groups of a match can hold. */
  predicate WellFormed(c: Captures) { FourDigits(c.year) && ShapedFrom(MonthGroup, c) }

  /**
   * The captures a match can return: a day without a month reads the same
   * as that month without a day, and the matcher prefers the month.
   */
  predicate Canonical(c: Captures)
  {
    WellFormed(c) && (c.month.None? ==> c.day.None?)
  }

  // ---------------------------------------------------------------------
  // The match, group by group

  predicate DashTwoDigits(s: string) { |s| >= 3 && s[0] == '-' && IsDigitChar(s[1]) && IsDigitChar(s[2]) }

  predicate ClockAt(s: string)
  {
    && |s| >= 9 && (s[0] == 'T' || s[0] == 't')
    && IsDigitChar(s[1]) && IsDigitChar(s[2]) && s[3] == ':'
    && IsDigitChar(s[4]) && IsDigitChar(s[5]) && s[6] == ':'
    && IsDigitChar(s[7]) && IsDigitChar(s[8])
  }

  predicate OffsetAt(s: string)
  {
    |s| == 6 && (s[0] == '+' || s[0] == '-') && IsDigitChar(s[1]) && IsDigitChar(s[2]) && s[3] == ':'
      && IsDigitChar(s[4]) && IsDigitChar(s[5])
  }

  /** The clock group read from the first nine characters, without a fraction. */
  function ClockOf(s: string): Clock
    requires ClockAt(s)
  {
    Clock(s[0], s[1..3], s[4..6], s[7..9], None)
  }

  /** The length of the run of digits starting at `i`. */
  function DigitRun(s: string, i: nat): (n: nat)
    requires i <= |s|
    ensures i + n <= |s|
    decreases |s| - i
  {
    if i < |s| && IsDigitChar(s[i]) then 1 + DigitRun(s, i + 1) else 0
  }

  /** `clock` with its fraction group set to `f`. */
  function WithFraction(acc: Captures, f: string): Captures
    requires acc.clock.Some?
  {
    acc.(clock := Some(acc.clock.value.(fraction := Some(f))))
  }

  /**
   * Groups `g` to the end, then `$`, matched against `s` after the groups in
   * `acc`: each optional group tried present first, then absent.
   */
  function MatchFrom(g: Group, s: string, acc: Captures): Option<Captures>
    decreases Rank(g), 0
  {
    match g
    case OffsetGroup =>
      if OffsetAt(s) then Some(acc.(offset := Some(Offset(s[0], s[1..3], s[4..6]))))
      else if s == [] then Some(acc.(offset := None))
      else None
    case ZoneGroup =>
      var present := if |s| >= 1 && (s[0] == 'Z' || s[0] == 'z') then MatchFrom(OffsetGroup, s[1..], acc.(zulu := Some(s[0]))) else None;
      if present.Some? then present else MatchFrom(OffsetGroup, s, acc.(zulu := None))
    case ClockGroup =>
      var present :=
        if ClockAt(s) then
          var withClock := acc.(clock := Some(ClockOf(s)));
          var fraction := if |s| >= 10 && s[9] == '.' then MatchFraction(s, 10, DigitRun(s, 10), withClock) else None;
          if fraction.Some? then fraction else MatchFrom(ZoneGroup, s[9..], withClock)
        else None;
      if present.Some? then present else MatchFrom(ZoneGroup, s, acc.(clock := None))
    case DayGroup =>
      var present := if DashTwoDigits(s) then MatchFrom(ClockGroup, s[3..], acc.(day := Some(s[1..3]))) else None;
      if present.Some? then present else MatchFrom(ClockGroup, s, acc.(day := None))
    case MonthGroup =>
      var present := if DashTwoDigits(s) then MatchFrom(DayGroup, s[3..], acc.(month := Some(s[1..3]))) else None;
      if present.Some? then present else MatchFrom(DayGroup, s, acc.(month := None))
  }

  /** `(\d*)` backtracking from `len` digits down to none, each followed by the zone groups. */
  function MatchFraction(s: string, start: nat, len: nat, acc: Captures): Option<Captures>
    requires acc.clock.Some?
    requires start + len <= |s|
    decreases 2, len
  {
    var attempt := MatchFrom(ZoneGroup, s[start + len..], WithFraction(acc, s[start..start + len]));
    if attempt.Some? then attempt
    else if len == 0 then None
    else MatchFraction(s, start, len - 1, acc)
  }

  /** `pattern.exec(val)`: the captures of the first match, or `null`; what matched is the whole input. */
  function Match(s: string): (r: Option<Captures>)
    ensures r.Some? ==> Render(r.value) == s && WellFormed(r.value)
  {
    if |s| >= 4 && IsDigitChar(s[0]) && IsDigitChar(s[1]) && IsDigitChar(s[2]) && IsDigitChar(s[3]) then
      var acc := Captures(s[..4], None, None, None, None, None);
      MonthSound(s[4..], acc);
      assert s[..4] + s[4..] == s;
      MatchFrom(MonthGroup, s[4..], acc)
    else None
  }

  // ---------------------------------------------------------------------
  // Soundness: what the groups captured is what they consumed

  lemma {:induction false} DigitRunMaximal(s: string, i: nat)
    requires i <= |s|
    ensures forall k :: i <= k < i + DigitRun(s, i) ==> IsDigitChar(s[k])
    ensures i + DigitRun(s, i) == |s| || !IsDigitChar(s[i + DigitRun(s, i)])
    decreases |s| - i
  {
    if i < |s| && IsDigitChar(s[i]) {
      DigitRunMaximal(s, i + 1);
    }
  }

  /** A match of groups `g` on keeps the earlier groups, consumed exactly `s` and captured well-shaped groups. */
  predicate SoundFrom(g: Group, s: string, acc: Captures, r: Captures)
  {
    Before(r, g) == Before(acc, g) && TextFrom(g, r) == s && ShapedFrom(g, r)
  }

  lemma {:induction false} Sound(g: Group, s: string, acc: Captures)
    ensures var r := MatchFrom(g, s, acc); r.Some? ==> SoundFrom(g, s, acc, r.value)
    decreases Rank(g), 1
  {
    match g
    case OffsetGroup => OffsetSound(s, acc);
    case ZoneGroup => ZoneSound(s, acc);
    case ClockGroup => ClockSound(s, acc);
    case DayGroup => DaySound(s, acc);
    case MonthGroup => MonthSound(s, acc);
  }

  lemma OffsetSound(s: string, acc: Captures)
    ensures var r := MatchFrom(OffsetGroup, s, acc); r.Some? ==> SoundFrom(OffsetGroup, s, acc, r.value)
  {
    if OffsetAt(s) { assert [s[0]] + s[1..3] + ":" + s[4..6] == s; }
  }

  lemma ZoneSound(s: string, acc: Captures)
    ensures var r := MatchFrom(ZoneGroup, s, acc); r.Some? ==> SoundFrom(ZoneGroup, s, acc, r.value)
  {
    if |s| >= 1 && (s[0] == 'Z' || s[0] == 'z') && MatchFrom(OffsetGroup, s[1..], acc.(zulu := Some(s[0]))).Some? {
      OffsetSound(s[1..], acc.(zulu := Some(s[0])));
      assert [s[0]] + s[1..] == s;
    } else {
      OffsetSound(s, acc.(zulu := None));
    }
  }

  lemma ClockSound(s: string, acc: Captures)
    ensures var r := MatchFrom(ClockGroup, s, acc); r.Some? ==> SoundFrom(ClockGroup, s, acc, r.value)
    decreases Rank(ClockGroup), 0
  {
    if ClockAt(s) && ClockPresent(s, acc).Some? {
      ClockPresentSound(s, acc);
    } else {
      ZoneSound(s, acc.(clock := None));
    }
  }

  lemma DaySound(s: string, acc: Captures)
    ensures var r := MatchFrom(DayGroup, s, acc); r.Some? ==> SoundFrom(DayGroup, s, acc, r.value)
    decreases Rank(DayGroup), 0
  {
    if DashTwoDigits(s) && MatchFrom(ClockGroup, s[3..], acc.(day := Some(s[1..3]))).Some? {
      ClockSound(s[3..], acc.(day := Some(s[1..3])));
      DashStep(DayGroup, s, acc, MatchFrom(ClockGroup, s[3..], acc.(day := Some(s[1..3]))).value);
    } else {
      ClockSound(s, acc.(day := None));
    }
  }

  lemma MonthSound(s: string, acc: Captures)
    ensures var r := MatchFrom(MonthGroup, s, acc); r.Some? ==> SoundFrom(MonthGroup, s, acc, r.value)
    decreases Rank(MonthGroup), 0
  {
    if DashTwoDigits(s) && MatchFrom(DayGroup, s[3..], acc.(month := Some(s[1..3]))).Some? {
      DaySound(s[3..], acc.(month := Some(s[1..3])));
      DashStep(MonthGroup, s, acc, MatchFrom(DayGroup, s[3..], acc.(month := Some(s[1..3]))).value);
    } else {
      DaySound(s, acc.(month := None));
    }
  }

  /** Prefixing `-dd` to what the day group and later ones matched gives what the month group and later ones match. */
  lemma DashStep(g: Group, s: string, acc: Captures, r: Captures)
    requires g == MonthGroup || g == DayGroup
    requires DashTwoDigits(s)
    requires g == MonthGroup ==> SoundFrom(DayGroup, s[3..], acc.(month := Some(s[1..3])), r)
    requires g == DayGroup ==> SoundFrom(ClockGroup, s[3..], acc.(day := Some(s[1..3])), r)
    ensures SoundFrom(g, s, acc, r)
  {
    assert "-" + s[1..3] + s[3..] == s;
  }

  /** The branch of the clock group where `[Tt]hh:mm:ss` is present. */
  function ClockPresent(s: string, acc: Captures): Option<Captures>
    requires ClockAt(s)
  {
    var withClock := acc.(clock := Some(ClockOf(s)));
    var fraction := if |s| >= 10 && s[9] == '.' then MatchFraction(s, 10, DigitRun(s, 10), withClock) else None;
    if fraction.Some? then fraction else MatchFrom(ZoneGroup, s[9..], withClock)
  }

  lemma ClockPresentSound(s: string, acc: Captures)
    requires ClockAt(s)
    ensures var r := ClockPresent(s, acc); r.Some? ==> SoundFrom(ClockGroup, s, acc, r.value)
    decreases 3, 0
  {
    var withClock := acc.(clock := Some(ClockOf(s)));
    if |s| >= 10 && s[9] == '.' && MatchFraction(s, 10, DigitRun(s, 10), withClock).Some? {
      DigitRunMaximal(s, 10);
      FractionSound(s, 10, DigitRun(s, 10), withClock);
      FractionStep(s, acc, MatchFraction(s, 10, DigitRun(s, 10), withClock).value);
    } else {
      ZoneSound(s[9..], withClock);
      if MatchFrom(ZoneGroup, s[9..], withClock).Some? {
        SecondsStep(s, acc, MatchFrom(ZoneGroup, s[9..], withClock).value);
      }
    }
  }

  lemma ClockOfText(s: string)
    requires ClockAt(s)
    ensures ClockPart(Some(ClockOf(s))) == s[..9]
  {
    assert [s[0]] + s[1..3] + ":" + s[4..6] + ":" + s[7..9] == s[..9];
  }

  /** A well-shaped clock group that consumed `s[..m]`, followed by what the zone groups matched in `s[m..]`. */
  lemma ClockStep(s: string, acc: Captures, r: Captures, k: Clock, m: nat)
    requires m <= |s| && ClockShaped(k) && ClockPart(Some(k)) == s[..m]
    requires Before(r, ZoneGroup) == Before(acc.(clock := Some(k)), ZoneGroup)
    requires TextFrom(ZoneGroup, r) == s[m..] && ShapedFrom(ZoneGroup, r)
    ensures SoundFrom(ClockGroup, s, acc, r)
  {
    assert r.clock == Some(k);
    assert s[..m] + s[m..] == s;
  }

  lemma ClockOfShaped(s: string)
    requires ClockAt(s)
    ensures ClockShaped(ClockOf(s))
  {
  }

  /** `[Tt]hh:mm:ss` followed by what the zone groups matched. */
  lemma SecondsStep(s: string, acc: Captures, r: Captures)
    requires ClockAt(s)
    requires SoundFrom(ZoneGroup, s[9..], acc.(clock := Some(ClockOf(s))), r)
    ensures SoundFrom(ClockGroup, s, acc, r)
  {
    ClockOfText(s);
    ClockOfShaped(s);
    ClockStep(s, acc, r, ClockOf(s), 9);
  }

  /** The clock group read from the first nine characters, with the `n` fraction digits after the dot. */
  lemma FractionText(s: string, n: nat)
    requires ClockAt(s) && |s| >= 10 + n && s[9] == '.'
    ensures ClockPart(Some(ClockOf(s).(fraction := Some(s[10..10 + n])))) == s[..10 + n]
  {
    assert [s[0]] + s[1..3] + ":" + s[4..6] + ":" + s[7..9] + "." + s[10..10 + n] == s[..10 + n];
  }

  /** The clock read from the first nine characters, with `n` digits after the dot as its fraction, is well-shaped. */
  lemma FractionShaped(s: string, n: nat)
    requires ClockAt(s) && |s| >= 10 + n
    requires forall k :: 10 <= k < 10 + n ==> IsDigitChar(s[k])
    ensures ClockShaped(ClockOf(s).(fraction := Some(s[10..10 + n])))
  {
    var f := s[10..10 + n];
    ClockOfShaped(s);
    forall i | 0 <= i < |f| ensures IsDigitChar(f[i]) { assert f[i] == s[10 + i]; }
  }

  /** `[Tt]hh:mm:ss.` and the fraction digits followed by what the zone groups matched. */
  lemma FractionStep(s: string, acc: Captures, r: Captures)
    requires ClockAt(s) && |s| >= 10 && s[9] == '.'
    requires forall k :: 10 <= k < 10 + DigitRun(s, 10) ==> IsDigitChar(s[k])
    requires r.clock.Some? && r.clock.value.fraction.Some?
    requires var n := |r.clock.value.fraction.value|;
      && n <= DigitRun(s, 10)
      && Before(r, ZoneGroup) == Before(WithFraction(acc.(clock := Some(ClockOf(s))), s[10..10 + n]), ZoneGroup)
      && TextFrom(ZoneGroup, r) == s[10 + n..] && ShapedFrom(ZoneGroup, r)
    ensures SoundFrom(ClockGroup, s, acc, r)
  {
    var n := |r.clock.value.fraction.value|;
    var k := ClockOf(s).(fraction := Some(s[10..10 + n]));
    assert WithFraction(acc.(clock := Some(ClockOf(s))), s[10..10 + n]) == acc.(clock := Some(k));
    FractionShaped(s, n);
    FractionText(s, n);
    ClockStep(s, acc, r, k, 10 + n);
  }

  lemma {:induction false} FractionSound(s: string, start: nat, len: nat, acc: Captures)
    requires acc.clock.Some?
    requires start + len <= |s|
    ensures var r := MatchFraction(s, start, len, acc);
      r.Some? ==>
        && r.value.clock.Some? && r.value.clock.value.fraction.Some?
        && var n := |r.value.clock.value.fraction.value|;
        && n <= len && Before(r.value, ZoneGroup) == Before(WithFraction(acc, s[start..start + n]), ZoneGroup)
        && TextFrom(ZoneGroup, r.value) == s[start + n..] && ShapedFrom(ZoneGroup, r.value)
    decreases 2, len
  {
    var withFraction := WithFraction(acc, s[start..start + len]);
    if MatchFrom(ZoneGroup, s[start + len..], withFraction).Some? {
      ZoneSound(s[start + len..], withFraction);
    } else if len > 0 {
      FractionSound(s, start, len - 1, acc);
    }
  }

  // ---------------------------------------------------------------------
  // Completeness: the text of canonical captures is matched to exactly them

  lemma {:induction false} DigitRunOf(s: string, i: nat, n: nat)
    requires i + n <= |s|
    requires forall k :: i <= k < i + n ==> IsDigitChar(s[k])
    requires i + n == |s| || !IsDigitChar(s[i + n])
    ensures DigitRun(s, i) == n
    decreases n
  {
    if n > 0 {
      DigitRunOf(s, i + 1, n - 1);
    }
  }

  /** No stage after the month matches a rest that starts with `:`. */
  lemma ColonFails(g: Group, s: string, acc: Captures)
    requires g != MonthGroup && |s| > 0 && s[0] == ':'
    ensures MatchFrom(g, s, acc).None?
    decreases Rank(g)
  {
    match g
    case OffsetGroup =>
    case ZoneGroup => ColonFails(OffsetGroup, s, acc.(zulu := None));
    case ClockGroup => ColonFails(ZoneGroup, s, acc.(clock := None));
    case DayGroup => ColonFails(ClockGroup, s, acc.(day := None));
  }

  /** The text of the zone groups is empty or starts with `Z`, `z`, `+` or `-`. */
  lemma ZoneTextStart(c: Captures)
    requires ShapedFrom(ZoneGroup, c)
    ensures var t := TextFrom(ZoneGroup, c); t == [] || t[0] in "Zz+-"
  {
  }

  /** The text of the clock and zone groups is empty or starts with `T`, `t`, `Z`, `z`, `+` or `-`. */
  lemma ClockTextStart(c: Captures)
    requires ShapedFrom(ClockGroup, c)
    ensures var t := TextFrom(ClockGroup, c); t == [] || t[0] in "TtZz+-"
  {
    ZoneTextStart(c);
  }

  lemma OffsetComplete(c: Captures)
    requires Shaped(OffsetGroup, c)
    ensures MatchFrom(OffsetGroup, TextFrom(OffsetGroup, c), Before(c, OffsetGroup)) == Some(c)
  {
    if c.offset.Some? {
      var o := c.offset.value;
      var t := TextFrom(OffsetGroup, c);
      assert t == [o.sign] + o.hours + ":" + o.minutes;
      assert t[1..3] == o.hours && t[4..6] == o.minutes;
    }
  }

  /** The text of the offset group is empty or starts with its sign. */
  lemma OffsetTextStart(c: Captures)
    requires Shaped(OffsetGroup, c)
    ensures var o := TextFrom(OffsetGroup, c); o == [] || o[0] == '+' || o[0] == '-'
  {
  }

  lemma ZoneComplete(c: Captures)
    requires ShapedFrom(ZoneGroup, c)
    ensures MatchFrom(ZoneGroup, TextFrom(ZoneGroup, c), Before(c, ZoneGroup)) == Some(c)
  {
    OffsetComplete(c);
    if c.zulu.Some? {
      ZuluPresentComplete(c);
    } else {
      ZuluAbsentComplete(c);
    }
  }

  lemma ZuluAbsentComplete(c: Captures)
    requires Shaped(OffsetGroup, c) && c.zulu.None?
    requires MatchFrom(OffsetGroup, TextFrom(OffsetGroup, c), Before(c, OffsetGroup)) == Some(c)
    ensures MatchFrom(ZoneGroup, TextFrom(ZoneGroup, c), Before(c, ZoneGroup)) == Some(c)
  {
    OffsetTextStart(c);
    assert TextFrom(ZoneGroup, c) == TextFrom(OffsetGroup, c);
    assert Before(c, ZoneGroup).(zulu := None) == Before(c, OffsetGroup);
  }

  lemma ZuluPresentComplete(c: Captures)
    requires ShapedFrom(ZoneGroup, c) && c.zulu.Some?
    requires MatchFrom(OffsetGroup, TextFrom(OffsetGroup, c), Before(c, OffsetGroup)) == Some(c)
    ensures MatchFrom(ZoneGroup, TextFrom(ZoneGroup, c), Before(c, ZoneGroup)) == Some(c)
  {
    var t := TextFrom(ZoneGroup, c);
    var o := TextFrom(OffsetGroup, c);
    assert t == [c.zulu.value] + o;
    assert t[0] == c.zulu.value && t[1..] == o;
    assert Before(c, ZoneGroup).(zulu := Some(t[0])) == Before(c, OffsetGroup);
  }

  lemma ClockComplete(c: Captures)
    requires ShapedFrom(ClockGroup, c)
    ensures MatchFrom(ClockGroup, TextFrom(ClockGroup, c), Before(c, ClockGroup)) == Some(c)
  {
    if c.clock.None? {
      ClockAbsentComplete(c);
    } else if c.clock.value.fraction.None? {
      SecondsComplete(c);
    } else {
      FractionComplete(c);
    }
  }

  lemma ClockAbsentComplete(c: Captures)
    requires ShapedFrom(ClockGroup, c) && c.clock.None?
    ensures MatchFrom(ClockGroup, TextFrom(ClockGroup, c), Before(c, ClockGroup)) == Some(c)
  {
    var t := TextFrom(ClockGroup, c);
    ZoneComplete(c);
    ZoneTextStart(c);
    assert t == TextFrom(ZoneGroup, c);
    assert Before(c, ClockGroup).(clock := None) == Before(c, ZoneGroup);
  }

  /** A clock group without a fraction: the text after the seconds is the zone's, which has no `.`. */
  lemma SecondsComplete(c: Captures)
    requires ShapedFrom(ClockGroup, c) && c.clock.Some? && c.clock.value.fraction.None?
    ensures MatchFrom(ClockGroup, TextFrom(ClockGroup, c), Before(c, ClockGroup)) == Some(c)
  {
    var t := TextFrom(ClockGroup, c);
    ClockShapedText(c);
    ZoneComplete(c);
    ZoneTextStart(c);
    var withClock := Before(c, ClockGroup).(clock := Some(ClockOf(t)));
    assert withClock == Before(c, ZoneGroup);
    assert |t| == 9 || t[9] != '.';
  }

  /** The text of a present clock group starts with the clock read back by `ClockOf`. */
  lemma ClockShapedText(c: Captures)
    requires c.clock.Some? && ClockShaped(c.clock.value)
    ensures var t := TextFrom(ClockGroup, c);
      && ClockAt(t)
      && ClockOf(t) == c.clock.value.(fraction := None)
      && (c.clock.value.fraction.None? ==> t[9..] == TextFrom(ZoneGroup, c))
      && (c.clock.value.fraction.Some? ==>
            |t| >= 10 && t[9] == '.'
            && t[10..10 + |c.clock.value.fraction.value|] == c.clock.value.fraction.value
            && t[10 + |c.clock.value.fraction.value|..] == TextFrom(ZoneGroup, c))
  {
    var k := c.clock.value;
    var head := [k.separator] + k.hour + ":" + k.minute + ":" + k.second;
    var t := TextFrom(ClockGroup, c);
    if k.fraction.Some? {
      assert t == head + "." + k.fraction.value + TextFrom(ZoneGroup, c);
    } else {
      assert t == head + TextFrom(ZoneGroup, c);
    }
  }

  lemma FractionComplete(c: Captures)
    requires ShapedFrom(ClockGroup, c) && c.clock.Some? && c.clock.value.fraction.Some?
    ensures MatchFrom(ClockGroup, TextFrom(ClockGroup, c), Before(c, ClockGroup)) == Some(c)
  {
    var t := TextFrom(ClockGroup, c);
    FractionRun(c);
    assert MatchFraction(t, 10, DigitRun(t, 10), Before(c, ClockGroup).(clock := Some(ClockOf(t)))) == Some(c);
  }

  /** A clock group with a fraction: the greedy digit run is exactly the fraction and the first attempt succeeds. */
  lemma FractionRun(c: Captures)
    requires ShapedFrom(ClockGroup, c) && c.clock.Some? && c.clock.value.fraction.Some?
    ensures var t := TextFrom(ClockGroup, c);
      && ClockAt(t) && |t| >= 10 && t[9] == '.'
      && MatchFraction(t, 10, DigitRun(t, 10), Before(c, ClockGroup).(clock := Some(ClockOf(t)))) == Some(c)
  {
    var t := TextFrom(ClockGroup, c);
    var f := c.clock.value.fraction.value;
    ClockShapedText(c);
    ZoneTextStart(c);
    ZoneComplete(c);
    DigitRunOf(t, 10, |f|);
    var withClock := Before(c, ClockGroup).(clock := Some(ClockOf(t)));
    assert WithFraction(withClock, t[10..10 + |f|]) == Before(c, ZoneGroup);
  }

  lemma DayComplete(c: Captures)
    requires ShapedFrom(DayGroup, c)
    ensures MatchFrom(DayGroup, TextFrom(DayGroup, c), Before(c, DayGroup)) == Some(c)
  {
    var t := TextFrom(DayGroup, c);
    ClockComplete(c);
    if c.day.Some? {
      assert t == "-" + c.day.value + TextFrom(ClockGroup, c);
      assert t[1..3] == c.day.value && t[3..] == TextFrom(ClockGroup, c);
      assert Before(c, DayGroup).(day := Some(t[1..3])) == Before(c, ClockGroup);
    } else {
      assert t == TextFrom(ClockGroup, c);
      if DashTwoDigits(t) {
        DashThenColon(c);
        ColonFails(ClockGroup, t[3..], Before(c, DayGroup).(day := Some(t[1..3])));
      }
    }
  }

  /** Clock and zone text that starts like a day or month group is an offset, so its fourth character is `:`. */
  lemma DashThenColon(c: Captures)
    requires ShapedFrom(ClockGroup, c) && DashTwoDigits(TextFrom(ClockGroup, c))
    ensures |TextFrom(ClockGroup, c)| > 3 && TextFrom(ClockGroup, c)[3] == ':'
  {
    var t := TextFrom(ClockGroup, c);
    ClockTextStart(c);
    assert c.clock.None? && c.zulu.None?;
    assert t == OffsetPart(c.offset);
  }

  lemma MonthComplete(c: Captures)
    requires ShapedFrom(MonthGroup, c) && (c.month.None? ==> c.day.None?)
    ensures MatchFrom(MonthGroup, TextFrom(MonthGroup, c), Before(c, MonthGroup)) == Some(c)
  {
    var t := TextFrom(MonthGroup, c);
    var d := TextFrom(DayGroup, c);
    DayComplete(c);
    if c.month.Some? {
      assert t == "-" + c.month.value + d;
      assert t[1..3] == c.month.value && t[3..] == d;
      assert Before(c, MonthGroup).(month := Some(t[1..3])) == Before(c, DayGroup);
      assert MatchFrom(DayGroup, t[3..], Before(c, DayGroup)) == Some(c);
    } else {
      assert t == d == TextFrom(ClockGroup, c);
      assert Before(c, MonthGroup).(month := None) == Before(c, DayGroup);
      if DashTwoDigits(t) {
        DashThenColon(c);
        ColonFails(DayGroup, t[3..], Before(c, MonthGroup).(month := Some(t[1..3])));
      }
    }
  }

  /** The matcher reads the text of canonical captures back as exactly those captures. */
  lemma MatchRender(c: Captures)
    requires Canonical(c)
    ensures Match(Render(c)) == Some(c)
  {
    var s := Render(c);
    MonthComplete(c);
    assert s[..4] == c.year && s[4..] == TextFrom(MonthGroup, c);
    assert Captures(s[..4], None, None, None, None, None) == Before(c, MonthGroup);
  }

  /** A day without a month renders like that month without a day, and is read back as the month. */
  lemma DayReadAsMonth(c: Captures)
    requires WellFormed(c) && c.month.None? && c.day.Some?
    ensures Match(Render(c)) == Some(c.(month := c.day, day := None))
  {
    var m := c.(month := c.day, day := None);
    assert TextFrom(ClockGroup, m) == TextFrom(ClockGroup, c);
    assert ShapedFrom(ClockGroup, m) == ShapedFrom(ClockGroup, c);
    assert Render(m) == Render(c);
    MatchRender(m);
  }

  /** "2009-05:30" is a year and an offset of minus five hours thirty, not a month. */
  lemma YearAndOffset()
    ensures Match("2009-05:30") == Some(Captures("2009", None, None, None, None, Some(Offset('-', "05", "30"))))
  {
    var c := Captures("2009", None, None, None, None, Some(Offset('-', "05", "30")));
    assert Render(c) == "2009-05:30";
    MatchRender(c);
  }
}
