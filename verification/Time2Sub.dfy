/** The second half of time2sub: the binary search of the whole time_t range. */
module Time2Sub {
  import opened Basics
  import opened CInt
  import opened Calendar
  import opened TimeSub
  import opened LocalSub
  import opened Normalize

  /** tmcomp: the first non-zero difference of two broken-down times, in int arithmetic. */
  function TmComp(a: Tm, b: Tm): int {
    var year, mon, mday := Wrap32(a.year - b.year), Wrap32(a.mon - b.mon), Wrap32(a.mday - b.mday);
    var hour, min, sec := Wrap32(a.hour - b.hour), Wrap32(a.min - b.min), Wrap32(a.sec - b.sec);
    if year != 0 then year else if mon != 0 then mon else if mday != 0 then mday
    else if hour != 0 then hour else if min != 0 then min else sec
  }

  predicate SameFields(a: Tm, b: Tm) {
    a.year == b.year && a.mon == b.mon && a.mday == b.mday && a.hour == b.hour && a.min == b.min && a.sec == b.sec
  }

  /** A date and time of day that exist, in an int year. */
  predicate Request(tm: Tm) {
    ValidDate(tm) && ValidTime(tm) && IsInt(tm.year)
  }

  lemma TmCompZero(a: Tm, b: Tm)
    requires Request(a) && Request(b)
    ensures TmComp(a, b) == 0 <==> SameFields(a, b)
  {
  }

  lemma EarlierDate(a: Tm, b: Tm)
    requires ValidDate(a) && ValidDate(b)
    requires a.year < b.year || (a.year == b.year && a.mon < b.mon)
    ensures DayOf(a) < DayOf(b)
  {
    var y, z := a.year + TM_YEAR_BASE, b.year + TM_YEAR_BASE;
    if a.year < b.year {
      YearOfValid(a);
      YearOfValid(b);
      YearSpan(y + 1, z);
    } else {
      MonthSpan(IsLeap(y), a.mon + 1, b.mon);
    }
  }

  lemma EarlierSecond(a: Tm, b: Tm)
    requires Request(a) && Request(b)
    requires TmComp(a, b) < 0 && IsInt(a.year - b.year)
    ensures SecondOf(a) < SecondOf(b)
  {
    if a.year < b.year || (a.year == b.year && a.mon < b.mon) {
      EarlierDate(a, b);
    }
    EarlierByDay(a, b);
  }

  lemma EarlierByDay(a: Tm, b: Tm)
    requires ValidTime(a) && ValidTime(b) && 0 <= a.mon < 12 && 0 <= b.mon < 12
    requires DayOf(a) < DayOf(b) ||
             (DayOf(a) == DayOf(b) && a.hour * 3600 + a.min * 60 + a.sec < b.hour * 3600 + b.min * 60 + b.sec)
    ensures SecondOf(a) < SecondOf(b)
  {
  }

  /** Where no year difference overflows, tmcomp orders broken-down times as the seconds. */
  lemma TmCompOrders(a: Tm, b: Tm)
    requires Request(a) && Request(b) && IsInt(a.year - b.year) && IsInt(b.year - a.year)
    ensures TmComp(a, b) < 0 <==> SecondOf(a) < SecondOf(b)
    ensures TmComp(a, b) > 0 <==> SecondOf(a) > SecondOf(b)
  {
    if TmComp(a, b) < 0 {
      EarlierSecond(a, b);
    } else if TmComp(a, b) > 0 {
      EarlierSecond(b, a);
    } else {
      TmCompZero(a, b);
    }
  }

  // ---------- zones of one fixed offset ----------

  predicate Fixed(z: Zone) {
    ValidZone(z) && |z.ats| == 0
  }

  function FixedType(z: Zone): TimeType
    requires ValidZone(z)
  {
    z.ttis[FirstStandardFrom(z.ttis, 0)]
  }

  lemma FixedLocal(z: Zone, t: int)
    requires Fixed(z)
    ensures LocalTime(z, t) == Shown(t, t, FixedType(z))
  {
    assert !Before(z, t) && !After(z, t);
  }

  ghost function UtcYear(t: int): int {
    YearOf(Div(t, SECS_PER_DAY))
  }

  ghost function LocalYear(t: int, offset: int): int {
    YearOf((t + offset) / SECS_PER_DAY)
  }

  lemma YearsMonotone(t: int, u: int, offset: int)
    requires t <= u
    ensures UtcYear(t) <= UtcYear(u) && LocalYear(t, offset) <= LocalYear(u, offset)
  {
    DivMonotone(t, u);
    FloorMonotone(t + offset, u + offset);
    YearOfMonotone(Div(t, SECS_PER_DAY), Div(u, SECS_PER_DAY));
    YearOfMonotone((t + offset) / SECS_PER_DAY, (u + offset) / SECS_PER_DAY);
  }

  lemma DivMonotone(a: int, b: int)
    requires a <= b
    ensures Div(a, SECS_PER_DAY) <= Div(b, SECS_PER_DAY)
  {
  }

  lemma FloorMonotone(a: int, b: int)
    requires a <= b
    ensures a / SECS_PER_DAY <= b / SECS_PER_DAY
  {
  }

  /** Around the epoch every int offset leaves a year that fits. */
  lemma NearEpoch(t: int, offset: int)
    requires -1 <= t <= 0 && IsInt(offset)
    ensures UtcYear(t) == EPOCH_YEAR
    ensures TM_YEAR_BASE <= LocalYear(t, offset) <= 2040
  {
    YearAtLeast(0, 0);
    YearLessThan(0, 1);
    var d := (t + offset) / SECS_PER_DAY;
    assert -24857 <= d <= 24857;
    YearAtLeast(d, 70);
    YearLessThan(d, 70);
  }

  lemma ShownYear(t: int, tt: TimeType)
    ensures Shown(t, t, tt).Some? <==>
            && INT_MIN < UtcYear(t) <= INT_MAX
            && IsInt(LocalYear(t, tt.gmtoff)) && IsInt(LocalYear(t, tt.gmtoff) - TM_YEAR_BASE)
    ensures Shown(t, t, tt).Some? ==> Shown(t, t, tt).value.year == LocalYear(t, tt.gmtoff) - TM_YEAR_BASE
  {
    YearOfDate(t + tt.gmtoff);
  }

  /** A probe that cannot be shown is beyond every time that can, on its own side of zero. */
  lemma NullIsExtreme(tt: TimeType, t: int, goal: int)
    requires IsInt(tt.gmtoff) && Shown(t, t, tt).None? && Shown(goal, goal, tt).Some?
    ensures if t > 0 then goal < t else goal > t
  {
    ShownYear(t, tt);
    ShownYear(goal, tt);
    NearEpoch(0, tt.gmtoff);
    if t > 0 && goal >= t {
      YearsMonotone(0, t, tt.gmtoff);
      YearsMonotone(t, goal, tt.gmtoff);
    } else if t <= 0 && goal <= t {
      YearsMonotone(t, 0, tt.gmtoff);
      YearsMonotone(goal, t, tt.gmtoff);
    }
  }

  const NEAR: int := -0x80_0000_0000_0000     // -2^55, the first probe below -1 that can be shown

  /** The probes -2^62 down to -2^56 of the search cannot be shown. */
  predicate NullProbe(lo: int) {
    lo == TIME_MIN || lo == -0x4000_0000_0000_0000 || lo == -0x2000_0000_0000_0000 ||
    lo == -0x1000_0000_0000_0000 || lo == -0x800_0000_0000_0000 || lo == -0x400_0000_0000_0000 ||
    lo == -0x200_0000_0000_0000 || lo == -0x100_0000_0000_0000
  }

  // ---------- what localsub shows in any zone ----------

  /** The second of the local calendar at t. */
  ghost function LocalSecond(z: Zone, t: int): int
    requires ValidZone(z)
  {
    t + TypeAt(z, t).gmtoff
  }

  /** The local calendar as a clock. */
  ghost function ClockOf(z: Zone): int -> int
    requires ValidZone(z)
  {
    t => LocalSecond(z, t)
  }

  lemma ShiftedByAnInt(z: Zone, t: int)
    requires ValidZone(z)
    ensures IsInt(LocalSecond(z, t) - t)
  {
  }

  lemma ShownSecond(z: Zone, t: int)
    requires ValidZone(z) && LocalTime(z, t).Some?
    ensures Request(LocalTime(z, t).value) && SecondOf(LocalTime(z, t).value) == LocalSecond(z, t)
  {
    LocalTimeIsTheDate(z, t);
  }

  ghost function YearOfSecond(r: int): int {
    YearOf(r / SECS_PER_DAY) - TM_YEAR_BASE
  }

  lemma RequestYear(tm: Tm)
    requires Request(tm)
    ensures YearOfSecond(SecondOf(tm)) == tm.year
  {
    DayOfSecond(tm);
    YearOfValid(tm);
  }

  lemma SecondsMonotone(r: int, s: int)
    requires r <= s
    ensures YearOfSecond(r) <= YearOfSecond(s)
  {
    FloorMonotone(r, s);
    YearOfMonotone(r / SECS_PER_DAY, s / SECS_PER_DAY);
  }

  /** The years around the probes -1 and NEAR, whatever the offset. */
  lemma YearsOfProbes(r: int)
    ensures r >= -1 + INT_MIN ==> YearOfSecond(r) >= 0
    ensures r <= INT_MAX ==> YearOfSecond(r) <= 140
    ensures r >= NEAR + INT_MIN ==> YearOfSecond(r) >= -1_250_000_000
    ensures r <= NEAR + INT_MAX ==> YearOfSecond(r) <= -1_000_000_000
    ensures r <= 2 * NEAR + INT_MAX ==> YearOfSecond(r) < INT_MIN
  {
    var d := r / SECS_PER_DAY;
    if r >= -1 + INT_MIN {
      YearAtLeast(d, 70);
    } else if r >= NEAR + INT_MIN {
      YearAtLeast(d, 1_144_000_000);
    }
    if r <= 2 * NEAR + INT_MAX {
      YearBelow(d, 2_200_000_000);
    } else if r <= NEAR + INT_MAX {
      YearBelow(d, 1_130_000_000);
    } else if r <= INT_MAX {
      YearLessThan(d, 70);
    }
  }

  /** A request is far inside the range of a time_t. */
  lemma RequestInRange(tm: Tm)
    requires Request(tm)
    ensures TIME_MIN + 0x1000_0000_0000_0000 < SecondOf(tm) < TIME_MAX - 0x1000_0000_0000_0000
  {
    var y := tm.year + TM_YEAR_BASE;
    YearOfValid(tm);
    if y < EPOCH_YEAR {
      YearSpan(y, EPOCH_YEAR);
      YearSpan(y + 1, EPOCH_YEAR);
    } else {
      YearSpan(EPOCH_YEAR, y);
      YearSpan(EPOCH_YEAR, y + 1);
    }
  }

  lemma FarProbesAreNull(z: Zone, t: int)
    requires ValidZone(z) && t <= 2 * NEAR
    ensures LocalTime(z, t).None?
  {
    if LocalTime(z, t).Some? {
      ShiftedByAnInt(z, t);
      ShownSecond(z, t);
      RequestYear(LocalTime(z, t).value);
      YearsOfProbes(LocalSecond(z, t));
    }
  }

  /** goal is the time whose date in the fixed zone is asked for. */
  ghost predicate Answers(z: Zone, your: Tm, goal: int) {
    Fixed(z) && IsTime(goal) && LocalTime(z, goal).Some? && SameFields(LocalTime(z, goal).value, your)
  }

  /**
    The condition under which the search can go the right way at its first probe, the
    second before the epoch: the difference of the years must fit an int.
   */
  ghost predicate FirstProbeFits(z: Zone, your: Tm) {
    ValidZone(z) && (LocalTime(z, -1).Some? ==> LocalTime(z, -1).value.year - your.year <= INT_MAX)
  }

  function Mid(lo: int, hi: int): int {
    var t := Div(lo, 2) + Div(hi, 2);
    if t < lo then lo else if t > hi then hi else t
  }

  /** Which way the search goes from probe t; 0 stops it. */
  ghost function Direction(z: Zone, your: Tm, t: int): int
    requires ValidZone(z)
  {
    var r := LocalTime(z, t);
    if r.None? then (if t > 0 then 1 else -1) else TmComp(r.value, your)
  }

  // ---------- which requests the search finds ----------

  /** A clock skips r between p and the next time. */
  ghost predicate Skips(clock: int -> int, r: int, p: int) {
    clock(p) < r < clock(p + 1)
  }

  /** No change of offset skips r. */
  ghost predicate NoGap(clock: int -> int, r: int) {
    forall p :: TIME_MIN <= p < TIME_MAX ==> !Skips(clock, r, p)
  }

  /** What the comment on the search assumes: a time that cannot be shown is too extreme. */
  ghost predicate NullsAreExtreme(z: Zone, r: int)
    requires ValidZone(z)
  {
    forall p :: IsTime(p) && LocalTime(z, p).None? ==>
      if p > 0 then r < LocalSecond(z, p) else LocalSecond(z, p) < r
  }

  /** A request that no change of offset skips, in a zone whose unshown times are extreme. */
  ghost predicate Clear(z: Zone, your: Tm)
    requires ValidZone(z) && Request(your)
  {
    NoGap(ClockOf(z), SecondOf(your)) && NullsAreExtreme(z, SecondOf(your))
  }

  /** The paths by which the search can have come to a range. */
  predicate Path(lo: int, hi: int) {
    || (lo == TIME_MIN && hi == TIME_MAX)
    || (hi == -1 && NullProbe(lo))
    || (hi <= -1 && (hi <= NEAR || lo >= NEAR))
    || lo >= -1
  }

  /** The search has come to lo and hi, and the second sought is between what the clock shows there. */
  ghost predicate Bracket(clock: int -> int, r: int, lo: int, hi: int) {
    IsTime(lo) && IsTime(hi) && lo <= hi && Path(lo, hi) && clock(lo) <= r <= clock(hi)
  }

  lemma MidOfPath(lo: int, hi: int)
    requires lo <= hi && Path(lo, hi)
    ensures lo <= Mid(lo, hi) <= hi
    ensures lo == TIME_MIN && hi == TIME_MAX ==> Mid(lo, hi) == -1
    ensures hi == -1 && NullProbe(lo) ==> NullProbe(Mid(lo, hi)) || Mid(lo, hi) == NEAR
  {
  }

  /** The years of what localsub shows at t, and of a second between what it shows at lo and hi. */
  lemma YearsBetween(z: Zone, lo: int, hi: int, r: int)
    requires ValidZone(z) && LocalSecond(z, lo) <= r <= LocalSecond(z, hi)
    ensures lo >= -1 ==> YearOfSecond(r) >= 0
    ensures hi <= -1 ==> YearOfSecond(r) <= 140
    ensures lo >= NEAR ==> YearOfSecond(r) >= -1_250_000_000
    ensures hi <= NEAR ==> YearOfSecond(r) <= -1_000_000_000
  {
    ShiftedByAnInt(z, lo);
    ShiftedByAnInt(z, hi);
    YearsOfProbes(r);
  }

  /** No probe of the search shows a year too far from the year asked for. */
  lemma YearGapFits(z: Zone, your: Tm, lo: int, hi: int)
    requires ValidZone(z) && Request(your) && FirstProbeFits(z, your) && Bracket(ClockOf(z), SecondOf(your), lo, hi)
    requires LocalTime(z, Mid(lo, hi)).Some?
    ensures -INT_MAX <= LocalTime(z, Mid(lo, hi)).value.year - your.year <= INT_MAX
  {
    var t := Mid(lo, hi);
    MidOfPath(lo, hi);
    ShownSecond(z, t);
    RequestYear(LocalTime(z, t).value);
    RequestYear(your);
    YearsBetween(z, lo, hi, SecondOf(your));
    YearsBetween(z, t, t, LocalSecond(z, t));
    if NullProbe(t) {
      FarProbesAreNull(z, t);
    }
  }

  /** Inside a bracket every probe sends the search to the side on which the second sought lies. */
  lemma DirectionIsRight(z: Zone, your: Tm, lo: int, hi: int)
    requires ValidZone(z) && Request(your) && FirstProbeFits(z, your)
    requires NullsAreExtreme(z, SecondOf(your)) && Bracket(ClockOf(z), SecondOf(your), lo, hi)
    ensures var t := Mid(lo, hi); var dir := Direction(z, your, t);
            && (dir > 0 <==> SecondOf(your) < LocalSecond(z, t)) && (dir < 0 <==> LocalSecond(z, t) < SecondOf(your))
  {
    var t := Mid(lo, hi);
    MidOfPath(lo, hi);
    if LocalTime(z, t).Some? {
      YearGapFits(z, your, lo, hi);
      ShownSecond(z, t);
      TmCompOrders(LocalTime(z, t).value, your);
    }
  }

  /** Around the epoch every zone shows a year near 1970. */
  lemma YearFromMinusOne(z: Zone, t: int)
    requires ValidZone(z) && t >= -1 && LocalTime(z, t).Some?
    ensures 0 <= LocalTime(z, t).value.year && (t == -1 ==> LocalTime(z, t).value.year <= 140)
  {
    ShownSecond(z, t);
    RequestYear(LocalTime(z, t).value);
    YearsBetween(z, t, t, LocalSecond(z, t));
  }

  /**
    When the first year difference overflows, the search goes up, in any zone, although every time from
    there on shows a later year.
   */
  lemma OverflowGoesUp(z: Zone, your: Tm, t: int)
    requires ValidZone(z) && Request(your) && !FirstProbeFits(z, your) && t >= -1
    ensures Direction(z, your, -1) < 0
    ensures LocalTime(z, t).Some? ==> your.year < LocalTime(z, t).value.year
  {
    YearFromMinusOne(z, -1);
    WrappedYear(LocalTime(z, -1).value, your);
    if LocalTime(z, t).Some? {
      YearFromMinusOne(z, t);
    }
  }

  lemma WrappedYear(a: Tm, b: Tm)
    ensures INT_MAX < a.year - b.year <= INT_MAX + 200 ==> TmComp(a, b) < 0
  {
  }

  /**
    The range after probe t went dir: an end that was probed itself is given up, and the
    probe, moved inside, becomes an end.
   */
  function Narrow(lo: int, hi: int, t: int, dir: int): (int, int) {
    if t == lo then (if dir > 0 then (lo + 1, t + 1) else (t + 1, hi))
    else if t == hi then (if dir > 0 then (lo, t - 1) else (t - 1, hi - 1))
    else if dir > 0 then (lo, t) else (t, hi)
  }

  lemma NarrowKeepsPath(lo: int, hi: int, dir: int)
    requires IsTime(lo) && IsTime(hi) && lo < hi && Path(lo, hi) && dir != 0
    requires (Mid(lo, hi) == lo ==> dir < 0) && (Mid(lo, hi) == hi ==> dir > 0)
    ensures var (lo', hi') := Narrow(lo, hi, Mid(lo, hi), dir); IsTime(lo') && IsTime(hi') && lo' <= hi' && Path(lo', hi')
  {
    MidOfPath(lo, hi);
  }

  /** As nothing skips the second sought, giving up an end keeps it in the bracket. */
  lemma NarrowKeepsBracket(clock: int -> int, r: int, lo: int, hi: int, dir: int)
    requires NoGap(clock, r) && Bracket(clock, r, lo, hi) && dir != 0
    requires var t := Mid(lo, hi); (dir > 0 <==> r < clock(t)) && (dir < 0 <==> clock(t) < r)
    ensures lo < hi
    ensures var (lo', hi') := Narrow(lo, hi, Mid(lo, hi), dir); Bracket(clock, r, lo', hi')
  {
    MidOfPath(lo, hi);
    NarrowKeepsSecond(clock, r, lo, hi, Mid(lo, hi), dir);
    NarrowKeepsPath(lo, hi, dir);
  }

  lemma NarrowKeepsSecond(clock: int -> int, r: int, lo: int, hi: int, t: int, dir: int)
    requires NoGap(clock, r) && IsTime(lo) && IsTime(hi) && lo <= t <= hi && clock(lo) <= r <= clock(hi)
    requires clock(t) != r && (dir > 0 <==> r < clock(t))
    ensures lo < hi && (t == lo ==> dir <= 0) && (t == hi ==> dir > 0)
    ensures clock(Narrow(lo, hi, t, dir).0) <= r <= clock(Narrow(lo, hi, t, dir).1)
  {
    if t == lo {
      assert lo < hi && !Skips(clock, r, t);
    } else if t == hi {
      assert !Skips(clock, r, t - 1);
    }
  }

  lemma StartsInBracket(z: Zone, your: Tm)
    requires ValidZone(z) && Request(your)
    ensures Bracket(ClockOf(z), SecondOf(your), TIME_MIN, TIME_MAX)
  {
    RequestInRange(your);
    ShiftedByAnInt(z, TIME_MIN);
    ShiftedByAnInt(z, TIME_MAX);
  }

  /** What the loop of the search knows. */
  ghost predicate OnTrack(z: Zone, your: Tm, lo: int, hi: int)
    requires ValidZone(z) && Request(your)
  {
    if FirstProbeFits(z, your) then Clear(z, your) ==> Bracket(ClockOf(z), SecondOf(your), lo, hi)
    else (lo == TIME_MIN && hi == TIME_MAX) || lo >= -1
  }

  lemma StaysOnTrack(z: Zone, your: Tm, lo: int, hi: int)
    requires ValidZone(z) && Request(your) && IsTime(lo) && IsTime(hi) && lo <= hi && OnTrack(z, your, lo, hi)
    ensures FirstProbeFits(z, your) && Clear(z, your) && lo == hi ==> Direction(z, your, Mid(lo, hi)) == 0
    ensures Direction(z, your, Mid(lo, hi)) != 0 ==>
              var (lo', hi') := Narrow(lo, hi, Mid(lo, hi), Direction(z, your, Mid(lo, hi)));
              OnTrack(z, your, lo', hi')
  {
    if FirstProbeFits(z, your) {
      if Clear(z, your) {
        DirectionIsRight(z, your, lo, hi);
        if Direction(z, your, Mid(lo, hi)) != 0 {
          NarrowKeepsBracket(ClockOf(z), SecondOf(your), lo, hi, Direction(z, your, Mid(lo, hi)));
        }
      }
    } else {
      OverflowGoesUp(z, your, -1);
      assert lo < -1 ==> Mid(lo, hi) == -1;
    }
  }

  /** A search that went the wrong way stops at nothing. */
  lemma LostForGood(z: Zone, your: Tm, lo: int, hi: int)
    requires ValidZone(z) && Request(your) && lo <= hi && OnTrack(z, your, lo, hi) && !FirstProbeFits(z, your)
    requires LocalTime(z, Mid(lo, hi)).Some?
    ensures !SameFields(LocalTime(z, Mid(lo, hi)).value, your)
  {
    OverflowGoesUp(z, your, Mid(lo, hi));
  }

  /** The range after a probe, unless nothing is left of it. */
  method NarrowRange(lo: int, hi: int, probe: int, dir: int) returns (more: bool, lo': int, hi': int)
    requires IsTime(lo) && IsTime(hi) && lo <= probe <= hi && dir != 0
    ensures more ==> (lo', hi') == Narrow(lo, hi, probe, dir)
    ensures more ==> IsTime(lo') && IsTime(hi') && lo' <= hi' && hi' - lo' < hi - lo
    ensures more <==> lo < hi
  {
    var t := probe;
    lo', hi' := lo, hi;
    if t == lo' {
      if t == TIME_MAX {
        return false, lo', hi';
      }
      t := t + 1;
      lo' := lo' + 1;
    } else if t == hi' {
      if t == TIME_MIN {
        return false, lo', hi';
      }
      t := t - 1;
      hi' := hi' - 1;
    }
    if lo' > hi' {
      return false, lo', hi';
    }
    if dir > 0 {
      hi' := t;
    } else {
      lo' := t;
    }
    more := true;
  }

  lemma LocalIsRequest(z: Zone, t: int)
    requires ValidZone(z) && LocalTime(z, t).Some?
    ensures Request(LocalTime(z, t).value)
  {
    LocalTimeIsTheDate(z, t);
  }

  /** One probe: which way to go. */
  method Probe(z: Zone, your: Tm, t: int) returns (dir: int)
    requires ValidZone(z) && Request(your) && IsTime(t)
    ensures dir == Direction(z, your, t)
    ensures dir == 0 ==> LocalTime(z, t).Some? && SameFields(LocalTime(z, t).value, your)
  {
    var my := Local(z, t);
    if my.None? {
      return if t > 0 then 1 else -1;
    }
    LocalIsRequest(z, t);
    TmCompZero(my.value, your);
    dir := TmComp(my.value, your);
  }

  ghost function DirectionOf(z: Zone, your: Tm): int -> int
    requires ValidZone(z)
  {
    t => Direction(z, your, t)
  }

  /** Where probes that go one way or the other lead from a range. */
  ghost function Leads(way: int -> int, lo: int, hi: int): Option<int>
    requires lo <= hi
    decreases hi - lo
  {
    var t := Mid(lo, hi);
    if way(t) == 0 then Some(t)
    else if lo == hi then None
    else
      var (lo', hi') := Narrow(lo, hi, t, way(t));
      if lo' <= hi' && hi' - lo' < hi - lo then Leads(way, lo', hi') else None
  }

  /**
    The binary search, in any zone.  It always ends, since hi - lo shrinks at every probe, and what it
    finds has the fields asked for.  It finds nothing if the first year difference does not fit an int;
    if it fits, it finds every request that no change of offset skips.
   */
  method Search(z: Zone, your: Tm) returns (found: bool, t: int)
    requires ValidZone(z) && Request(your)
    ensures found ==> IsTime(t) && LocalTime(z, t).Some? && SameFields(LocalTime(z, t).value, your)
    ensures found ==> FirstProbeFits(z, your)
    ensures FirstProbeFits(z, your) && Clear(z, your) ==> found
    ensures Leads(DirectionOf(z, your), TIME_MIN, TIME_MAX) == if found then Some(t) else None
  {
    var lo, hi := TIME_MIN, TIME_MAX;
    StartsInBracket(z, your);
    while true
      invariant IsTime(lo) && IsTime(hi) && lo <= hi && OnTrack(z, your, lo, hi)
      invariant Leads(DirectionOf(z, your), lo, hi) == Leads(DirectionOf(z, your), TIME_MIN, TIME_MAX)
      decreases hi - lo
    {
      t := Mid(lo, hi);
      var dir := Probe(z, your, t);
      StaysOnTrack(z, your, lo, hi);
      if dir == 0 {
        if !FirstProbeFits(z, your) {
          LostForGood(z, your, lo, hi);
        }
        return true, t;
      }
      var more: bool;
      more, lo, hi := NarrowRange(lo, hi, t, dir);
      if !more {
        return false, t;
      }
    }
    found := false;
  }

  // ---------- zones in which requests are clear ----------

  lemma SameFieldsSameSecond(a: Tm, b: Tm)
    requires SameFields(a, b) && 0 <= a.mon < 12
    ensures SecondOf(a) == SecondOf(b)
  {
  }

  /** In a zone of fixed offset every request that is shown is clear, and shown once. */
  lemma FixedIsClear(z: Zone, your: Tm, goal: int)
    requires Answers(z, your, goal) && Request(your)
    ensures Clear(z, your)
    ensures forall t :: LocalTime(z, t).Some? && SameFields(LocalTime(z, t).value, your) ==> t == goal
  {
    var tt, r := FixedType(z), SecondOf(your);
    SecondOfShown(z, your, goal);
    forall t ensures LocalSecond(z, t) == t + tt.gmtoff {
      assert !Before(z, t) && !After(z, t);
    }
    forall t | LocalTime(z, t).Some? && SameFields(LocalTime(z, t).value, your) ensures t == goal {
      SecondOfShown(z, your, t);
    }
    forall p | IsTime(p) && LocalTime(z, p).None? ensures if p > 0 then r < LocalSecond(z, p) else LocalSecond(z, p) < r {
      FixedLocal(z, p);
      FixedLocal(z, goal);
      NullIsExtreme(tt, p, goal);
    }
  }

  /** Tables that lie in years that an int holds. */
  predicate TableInRange(z: Zone) {
    forall i :: 0 <= i < |z.ats| ==> NEAR <= z.ats[i] <= -NEAR
  }

  /** Any year but the 2000 first and last of a struct tm. */
  predicate Ordinary(your: Tm) {
    INT_MIN + 2000 <= your.year <= INT_MAX - 2000
  }

  lemma MiddleIsRepresentable(u: int, offset: int)
    requires NEAR <= u <= -NEAR && IsInt(offset)
    ensures Representable(u, offset)
  {
    var d, e := Div(u, SECS_PER_DAY), (u + offset) / SECS_PER_DAY;
    assert -417_100_000_000 <= d <= 417_100_000_000;
    assert -417_100_000_000 <= e <= 417_100_000_000;
    YearAtLeast(d, 1_144_000_000);
    YearLessThan(d, 1_144_000_000);
    YearAtLeast(e, 1_144_000_000);
    YearLessThan(e, 1_144_000_000);
  }

  /** The local year is at most 70 away from the year in UTC. */
  lemma YearsNear(t: int, offset: int)
    requires IsInt(offset)
    ensures UtcYear(t) - 70 <= LocalYear(t, offset) <= UtcYear(t) + 70
  {
    var d, e := Div(t, SECS_PER_DAY), (t + offset) / SECS_PER_DAY;
    assert d - 24857 <= e <= d + 24857;
    var y, l := UtcYear(t), LocalYear(t, offset);
    if l > y + 70 {
      YearSpan(y + 1, l);
    } else if l < y - 70 {
      YearSpan(l + 1, y);
    }
  }

  /** A time that cannot be shown, in a zone whose table can, has an extreme local year. */
  lemma UnshownYear(z: Zone, p: int)
    requires ValidZone(z) && TableInRange(z) && IsTime(p) && LocalTime(z, p).None?
    ensures YearOfSecond(LocalSecond(z, p)) < INT_MIN + 2000 || YearOfSecond(LocalSecond(z, p)) > INT_MAX - 2000
  {
    var u, tt := Fold(z, p), TypeAt(z, p);
    ShiftedByAnInt(z, p);
    YearOfDate(p + tt.gmtoff);
    if Before(z, p) || After(z, p) {
      MiddleIsRepresentable(u, tt.gmtoff);
    } else {
      YearsNear(p, tt.gmtoff);
    }
  }

  /** For every ordinary year the first year difference fits, and the assumption on unshown times holds. */
  lemma OrdinaryYearsAreShown(z: Zone, your: Tm)
    requires ValidZone(z) && TableInRange(z) && Request(your) && Ordinary(your)
    ensures FirstProbeFits(z, your) && NullsAreExtreme(z, SecondOf(your))
  {
    if LocalTime(z, -1).Some? {
      YearFromMinusOne(z, -1);
    }
    RequestYear(your);
    var r := SecondOf(your);
    forall p | IsTime(p) && LocalTime(z, p).None? ensures if p > 0 then r < LocalSecond(z, p) else LocalSecond(z, p) < r {
      UnshownYear(z, p);
      YearsBetween(z, p, p, LocalSecond(z, p));
      ShiftedByAnInt(z, p);
      YearsOfProbes(LocalSecond(z, p));
      if LocalSecond(z, p) <= r {
        SecondsMonotone(LocalSecond(z, p), r);
      }
      if r <= LocalSecond(z, p) {
        SecondsMonotone(r, LocalSecond(z, p));
      }
    }
  }

  /** One type is in force at every time from which an offset of the zone, from least to most, leads to r. */
  ghost predicate OneTypeAround(z: Zone, r: int, least: int, most: int, tt: TimeType)
    requires ValidZone(z)
  {
    && (forall i :: 0 <= i < |z.ttis| ==> least <= z.ttis[i].gmtoff <= most)
    && (forall p :: r - most <= p <= r - least ==> TypeAt(z, p) == tt)
  }

  /** A second around which one type is in force is not skipped. */
  lemma OneTypeHasNoGap(z: Zone, r: int, least: int, most: int, tt: TimeType)
    requires ValidZone(z) && OneTypeAround(z, r, least, most, tt)
    ensures NoGap(ClockOf(z), r)
  {
    forall p | TIME_MIN <= p < TIME_MAX ensures !Skips(ClockOf(z), r, p) {
      assert least <= TypeAt(z, p).gmtoff <= most;
      assert least <= TypeAt(z, p + 1).gmtoff <= most;
    }
  }

  /**
    In an ordinary year, with a table in range, a request around which one type is in force is clear, and
    the first year difference fits, so that the search finds it, and any time found is the one of that type.
   */
  lemma FoundAroundOneType(z: Zone, your: Tm, least: int, most: int, tt: TimeType)
    requires ValidZone(z) && TableInRange(z) && Request(your) && Ordinary(your)
    requires OneTypeAround(z, SecondOf(your), least, most, tt)
    ensures FirstProbeFits(z, your) && Clear(z, your)
    ensures forall t :: LocalTime(z, t).Some? && SameFields(LocalTime(z, t).value, your) ==> t == SecondOf(your) - tt.gmtoff
  {
    OrdinaryYearsAreShown(z, your);
    OneTypeHasNoGap(z, SecondOf(your), least, most, tt);
    forall t | LocalTime(z, t).Some? && SameFields(LocalTime(z, t).value, your) ensures t == SecondOf(your) - tt.gmtoff {
      SecondOfShown(z, your, t);
      OnlyTimeAround(z, SecondOf(your), least, most, tt, t);
    }
  }

  lemma OnlyTimeAround(z: Zone, r: int, least: int, most: int, tt: TimeType, t: int)
    requires ValidZone(z) && OneTypeAround(z, r, least, most, tt)
    requires LocalSecond(z, t) == r
    ensures t == r - tt.gmtoff
  {
    assert least <= TypeAt(z, t).gmtoff <= most;
  }

  lemma SecondOfShown(z: Zone, your: Tm, t: int)
    requires ValidZone(z) && Request(your) && LocalTime(z, t).Some? && SameFields(LocalTime(z, t).value, your)
    ensures LocalSecond(z, t) == SecondOf(your)
  {
    ShownSecond(z, t);
    SameFieldsSameSecond(your, LocalTime(z, t).value);
  }

  /** In the seventy earliest years the weekday shown is four days late. */
  lemma LateWeekday(tt: TimeType, t: int)
    requires Shown(t, t, tt).Some? && Shown(t, t, tt).value.year < INT_MIN + 70
    ensures var tm := Shown(t, t, tt).value;
            0 <= tm.mon < 12 && tm.wday == (Weekday(DayOf(tm)) + 4) % 7 && !Valid(tm)
  {
    WithWeekday(TmOf(t + tt.gmtoff), Written(t + tt.gmtoff).wday, tt.isdst);
    FourDaysLate(DayOf(TmOf(t + tt.gmtoff)) + EPOCH_WDAY);
  }

  /**
    The overflow happens: the first second of the earliest year that a struct tm can hold,
    in UTC, is shown by localsub, with a weekday four days late, but not found by the search.
   */
  lemma EarliestYearIsLost() returns (z: Zone, your: Tm, goal: int)
    ensures Answers(z, your, goal) && Request(your) && your.year == INT_MIN && !FirstProbeFits(z, your)
    ensures LocalTime(z, goal) == Some(your) && your.wday == (Weekday(DayOf(your)) + 4) % 7 && !Valid(your)
  {
    z := Zone([], [], [TimeType(0, 0)], false, false);
    var tt := FixedType(z);
    goal := FirstSecond(tt, INT_MIN + TM_YEAR_BASE);
    FixedLocal(z, goal);
    FixedLocal(z, -1);
    ShownSecond(z, goal);
    ShownYear(-1, tt);
    NearEpoch(-1, tt.gmtoff);
    YearFromMinusOne(z, -1);
    your := LocalTime(z, goal).value;
    LateWeekday(tt, goal);
  }

  /** The first second of a year, in UTC. */
  lemma FirstSecond(tt: TimeType, y: int) returns (s: int)
    requires tt.gmtoff == 0 && INT_MIN + TM_YEAR_BASE <= y <= EPOCH_YEAR
    ensures IsTime(s) && Shown(s, s, tt).Some? && Shown(s, s, tt).value.year == y - TM_YEAR_BASE
  {
    var day := DaysToYear(y);
    s := day * SECS_PER_DAY;
    YearSpan(y, EPOCH_YEAR);
    YearUnique(day, y);
    assert Div(s, SECS_PER_DAY) == day && s / SECS_PER_DAY == day;
    ShownYear(s, tt);
  }

  // ---------- time2sub as a whole ----------

  /** The guess of the hunt from types i and j. */
  function Guess(z: Zone, t: int, i: nat, j: nat): int
    requires i < |z.ttis| && j < |z.ttis|
  {
    Wrap64(t + z.ttis[j].gmtoff - z.ttis[i].gmtoff)
  }

  /** localsub shows the fields and the tm_isdst asked for. */
  ghost predicate Shows(z: Zone, t: int, your: Tm)
    requires ValidZone(z)
  {
    LocalTime(z, t).Some? && SameFields(LocalTime(z, t).value, your) && LocalTime(z, t).value.isdst == your.isdst
  }

  /** Types i, of the tm_isdst asked for, and j, of the other, whose guess is right. */
  ghost predicate Hit(z: Zone, t: int, your: Tm, i: nat, j: nat)
    requires ValidZone(z) && i < |z.ttis| && j < |z.ttis|
  {
    z.ttis[i].isdst == your.isdst && z.ttis[j].isdst != your.isdst && Shows(z, Guess(z, t, i, j), your)
  }

  /**
    The hunt for a time with the right fields and the right tm_isdst, near a wrong one: it takes
    the guess of the last pair of types that is right, and finds none only if no pair is.
   */
  method Hunt(z: Zone, t: int, your: Tm) returns (found: bool, newt: int, ghost i': nat, ghost j': nat)
    requires ValidZone(z) && Request(your)
    ensures found ==> IsTime(newt) && Shows(z, newt, your)
    ensures found ==> i' < |z.ttis| && j' < |z.ttis| && newt == Guess(z, t, i', j') && Hit(z, t, your, i', j')
    ensures forall i, j :: 0 <= i < |z.ttis| && 0 <= j < |z.ttis| && (found ==> i > i' || (i == i' && j > j')) ==>
              !Hit(z, t, your, i, j)
  {
    i', j' := 0, 0;
    var i := |z.ttis| - 1;
    while i >= 0
      invariant -1 <= i < |z.ttis|
      invariant forall k, l :: i < k < |z.ttis| && 0 <= l < |z.ttis| ==> !Hit(z, t, your, k, l)
    {
      if z.ttis[i].isdst == your.isdst {
        ghost var j;
        found, newt, j := HuntRow(z, t, your, i);
        if found {
          return true, newt, i, j;
        }
      }
      i := i - 1;
    }
    return false, t, 0, 0;
  }

  /** The inner loop of the hunt. */
  method HuntRow(z: Zone, t: int, your: Tm, i: nat) returns (found: bool, newt: int, ghost j': nat)
    requires ValidZone(z) && Request(your) && i < |z.ttis| && z.ttis[i].isdst == your.isdst
    ensures found ==> IsTime(newt) && j' < |z.ttis| && newt == Guess(z, t, i, j') && Hit(z, t, your, i, j')
    ensures forall j :: 0 <= j < |z.ttis| && (found ==> j > j') ==> !Hit(z, t, your, i, j)
  {
    j' := 0;
    var j := |z.ttis| - 1;
    while j >= 0
      invariant -1 <= j < |z.ttis|
      invariant forall l :: j < l < |z.ttis| ==> !Hit(z, t, your, i, l)
    {
      found, newt := TryPair(z, t, your, i, j);
      if found {
        return true, newt, j;
      }
      j := j - 1;
    }
    return false, t, 0;
  }

  /** The body of the inner loop. */
  method TryPair(z: Zone, t: int, your: Tm, i: nat, j: nat) returns (hit: bool, newt: int)
    requires ValidZone(z) && Request(your) && i < |z.ttis| && j < |z.ttis| && z.ttis[i].isdst == your.isdst
    ensures hit <==> Hit(z, t, your, i, j)
    ensures hit ==> IsTime(newt) && newt == Guess(z, t, i, j)
  {
    if z.ttis[j].isdst == your.isdst {
      return false, t;
    }
    newt := Wrap64(t + z.ttis[j].gmtoff - z.ttis[i].gmtoff);
    hit := TryGuess(z, newt, your);
  }

  /** One guess checked. */
  method TryGuess(z: Zone, newt: int, your: Tm) returns (hit: bool)
    requires ValidZone(z) && Request(your) && IsTime(newt)
    ensures hit <==> Shows(z, newt, your)
  {
    var my := Local(z, newt);
    if my.None? {
      return false;
    }
    LocalIsRequest(z, newt);
    TmCompZero(my.value, your);
    hit := TmComp(my.value, your) == 0 && my.value.isdst == your.isdst;
  }

  /** The seconds that cannot be set aside: out of range and too far below, in a year before 1970. */
  predicate SecondsOverflow(sec: int, year: int) {
    sec < INT_MIN + 59 && year + TM_YEAR_BASE < EPOCH_YEAR
  }

  /** The seconds taken out of the search, so that it looks for a second within 0..59. */
  method SaveSeconds(your: Tm) returns (ok: bool, saved: int, sought: Tm)
    requires IsInt(your.sec) && IsInt(your.year)
    ensures ok <==> !SecondsOverflow(your.sec, your.year)
    ensures ok ==> sought == your.(sec := sought.sec) && 0 <= sought.sec < 60 && saved + sought.sec == your.sec
    ensures 0 <= your.sec < 60 ==> ok && saved == 0
    ensures ok ==> IsInt(saved)
  {
    if 0 <= your.sec < 60 {
      return true, 0, your;
    }
    if your.year + TM_YEAR_BASE < EPOCH_YEAR {
      var (sec, overflow) := IncrementOverflow(your.sec, 1 - 60);
      return !overflow, sec, your.(sec := 59);
    }
    return true, your.sec, your.(sec := 0);
  }

  /** The answer of time2sub: WRONG, or a time and the date localsub shows for it. */
  datatype Answer = Wrong | Found(time: int, tm: Tm)

  /** The denoted day and time of day with the second replaced by one that exists. */
  predicate Sought(sought: Tm, tm: Tm, normSecs: bool) {
    var c := Carried(tm, normSecs);
    && Request(sought) && DayOf(sought) == DayOf(c)
    && sought.hour == c.hour && sought.min == c.min && sought.isdst == c.isdst
    && (0 <= c.sec < 60 ==> sought.sec == c.sec)
  }

  /** The request can be normalised and its seconds set aside. */
  ghost predicate Searchable(tm: Tm, normSecs: bool) {
    && CarriesFit(tm, normSecs)
    && var c := Carried(tm, normSecs); var year := YearOf(DayOf(c)) - TM_YEAR_BASE;
       IsInt(year) && !SecondsOverflow(c.sec, year)
  }

  /**
    Everything before the search.  It refuses exactly when a carry, the year or the seconds to set
    aside overflow an int.
   */
  method Prepare(tm: Tm, normSecs: bool) returns (ok: bool, saved: int, sought: Tm)
    requires IntFields(tm)
    ensures ok <==> Searchable(tm, normSecs)
    ensures ok ==> IsInt(saved) && Sought(sought, tm, normSecs) && saved + sought.sec == Carried(tm, normSecs).sec
    ensures Request(tm) ==> ok && saved == 0 && sought == tm
  {
    var your;
    ok, your := NormalizeFields(tm, normSecs);
    if Request(tm) {
      InRangeIsNormal(tm, normSecs, your, ok);
    }
    if ok {
      YearOfValid(your);
      ok, saved, sought := SaveSeconds(your);
    } else {
      saved, sought := 0, tm;
    }
  }

  /** The test for a sum past the end of time_t. */
  lemma SumTested(t: int, saved: int)
    requires IsTime(t) && IsInt(saved)
    ensures (Wrap64(t + saved) < t) == (saved < 0) <==> IsTime(t + saved)
  {
  }

  /** Everything after the search: the saved seconds go back in, and localsub must agree. */
  method Finish(z: Zone, t: int, saved: int) returns (r: Answer)
    requires ValidZone(z) && IsTime(t) && IsInt(saved)
    ensures r.Found? <==> IsTime(t + saved) && LocalTime(z, t + saved).Some?
    ensures r.Found? ==> r.time == t + saved && LocalTime(z, r.time) == Some(r.tm)
  {
    var newt := Wrap64(t + saved);
    SumTested(t, saved);
    if (newt < t) != (saved < 0) {
      return Wrong;
    }
    var my := Local(z, newt);
    r := if my.Some? then Found(newt, my.value) else Wrong;
  }

  /** r answers the request: some time t0 has the sought fields, and r is the saved seconds away. */
  ghost predicate Meets(z: Zone, tm: Tm, normSecs: bool, r: Answer, sought: Tm, t0: int)
    requires ValidZone(z)
  {
    && r.Found? && IsTime(r.time) && LocalTime(z, r.time) == Some(r.tm)
    && Sought(sought, tm, normSecs)
    && LocalTime(z, t0).Some? && SameFields(LocalTime(z, t0).value, sought)
    && r.time - t0 == Carried(tm, normSecs).sec - sought.sec
    && (tm.isdst >= 0 ==> LocalTime(z, t0).value.isdst == tm.isdst)
  }

  /** Types i and j are the last pair whose guess is right. */
  ghost predicate LastHit(z: Zone, t: int, your: Tm, i: nat, j: nat)
    requires ValidZone(z)
  {
    && i < |z.ttis| && j < |z.ttis| && Hit(z, t, your, i, j)
    && forall k, l :: 0 <= k < |z.ttis| && 0 <= l < |z.ttis| && (k > i || (k == i && l > j)) ==> !Hit(z, t, your, k, l)
  }

  ghost predicate MeetsDst(z: Zone, t: int, your: Tm)
    requires ValidZone(z) && LocalTime(z, t).Some?
  {
    your.isdst < 0 || LocalTime(z, t).value.isdst == your.isdst
  }

  /**
    Where time2sub goes from a time that shows the fields sought: nowhere else if tm_isdst is met there
    or not given, otherwise to the last right guess of the hunt, and to none only if no guess is right.
   */
  ghost predicate Settles(z: Zone, your: Tm, t0: int, t1: Option<int>)
    requires ValidZone(z) && LocalTime(z, t0).Some?
  {
    if MeetsDst(z, t0, your) then t1 == Some(t0)
    else if t1.Some? then exists i, j :: LastHit(z, t0, your, i, j) && t1.value == Guess(z, t0, i, j)
    else forall i, j :: 0 <= i < |z.ttis| && 0 <= j < |z.ttis| ==> !Hit(z, t0, your, i, j)
  }

  /** What the search may answer: a time that shows the request, and none only where it may miss. */
  ghost predicate SearchedFor(z: Zone, your: Tm, t0: Option<int>)
    requires ValidZone(z) && Request(your)
  {
    && (t0.Some? ==> LocalTime(z, t0.value).Some? && SameFields(LocalTime(z, t0.value).value, your) && FirstProbeFits(z, your))
    && (t0.None? ==> !(FirstProbeFits(z, your) && Clear(z, your)))
  }

  /** The search and, if need be, the hunt. */
  method SearchAndHunt(z: Zone, your: Tm) returns (t: Option<int>, ghost t0: Option<int>)
    requires ValidZone(z) && Request(your)
    ensures SearchedFor(z, your, t0)
    ensures if t0.Some? then Settles(z, your, t0.value, t) else t.None?
    ensures t.Some? ==> IsTime(t.value) && LocalTime(z, t.value).Some? && SameFields(LocalTime(z, t.value).value, your)
    ensures t.Some? ==> MeetsDst(z, t.value, your)
  {
    var found, first := Search(z, your);
    if !found {
      return None, None;
    }
    t0 := Some(first);
    var my := Local(z, first);
    if your.isdst < 0 || my.value.isdst == your.isdst {
      return Some(first), t0;
    }
    var newt;
    ghost var i, j;
    found, newt, i, j := Hunt(z, first, your);
    t := if found then Some(newt) else None;
    assert found ==> LastHit(z, first, your, i, j);
  }

  /** localsub shows the time so many seconds from t. */
  ghost predicate ShownFrom(z: Zone, t: int, saved: int)
    requires ValidZone(z)
  {
    IsTime(t + saved) && LocalTime(z, t + saved).Some?
  }

  /**
    What time2sub answers.  sought is the request with a second that exists, t0 what the search finds, and
    t1 where the hunt leads.  There is an answer exactly when there is such a t1 and localsub shows the
    time as many seconds from it as were saved, and that time is the answer.
   */
  ghost predicate Answered(z: Zone, tm: Tm, normSecs: bool, r: Answer, sought: Tm, t0: Option<int>, t1: Option<int>)
    requires ValidZone(z)
  {
    if !Searchable(tm, normSecs) then r.Wrong?
    else
      && Sought(sought, tm, normSecs) && SearchedFor(z, sought, t0)
      && (if t0.Some? then Settles(z, sought, t0.value, t1) else t1.None?)
      && Delivers(z, tm, normSecs, r, sought, t1)
  }

  ghost predicate Delivers(z: Zone, tm: Tm, normSecs: bool, r: Answer, sought: Tm, t1: Option<int>)
    requires ValidZone(z)
  {
    && (r.Found? <==> t1.Some? && ShownFrom(z, t1.value, Carried(tm, normSecs).sec - sought.sec))
    && (r.Found? ==> Meets(z, tm, normSecs, r, sought, t1.value))
  }

  /**
    time2sub inverts localsub in zones of fixed offset: a request in range that localsub shows for some
    time finds that time, exactly when the first year difference of the search fits an int.
   */
  lemma InvertsFixedZones(z: Zone, tm: Tm, normSecs: bool, r: Answer, sought: Tm, t0: Option<int>, t1: Option<int>, goal: int)
    requires Answers(z, tm, goal) && Request(tm) && IntFields(tm) && MeetsDst(z, goal, tm)
    requires Answered(z, tm, normSecs, r, sought, t0, t1)
    ensures (r.Found? <==> FirstProbeFits(z, tm)) && (r.Found? ==> r.time == goal)
  {
    RequestIsSought(tm, normSecs, sought);
    FixedIsClear(z, sought, goal);
  }

  /** A request in range is sought as it is. */
  lemma RequestIsSought(tm: Tm, normSecs: bool, sought: Tm)
    requires Request(tm) && IntFields(tm)
    ensures Searchable(tm, normSecs) && Carried(tm, normSecs) == tm
    ensures Sought(sought, tm, normSecs) ==> SameFields(sought, tm) && sought.isdst == tm.isdst
  {
    YearOfValid(tm);
    if Sought(sought, tm, normSecs) {
      SameDaySameDate(sought, tm);
    }
  }

  lemma DeliveredBy(z: Zone, tm: Tm, normSecs: bool, r: Answer, sought: Tm, t1: Option<int>, saved: int)
    requires ValidZone(z) && Sought(sought, tm, normSecs) && saved + sought.sec == Carried(tm, normSecs).sec
    requires t1.Some? ==> LocalTime(z, t1.value).Some? && SameFields(LocalTime(z, t1.value).value, sought) && MeetsDst(z, t1.value, sought)
    requires r.Found? <==> t1.Some? && ShownFrom(z, t1.value, saved)
    requires r.Found? ==> r.time == t1.value + saved && LocalTime(z, r.time) == Some(r.tm)
    ensures Delivers(z, tm, normSecs, r, sought, t1)
  {
  }

  /** time2sub for any zone. */
  method MakeTime(z: Zone, tm: Tm, normSecs: bool)
    returns (r: Answer, ghost sought: Tm, ghost t0: Option<int>, ghost t1: Option<int>)
    requires ValidZone(z) && IntFields(tm)
    ensures Answered(z, tm, normSecs, r, sought, t0, t1)
  {
    t0, t1 := None, None;
    var ok, saved, want := Prepare(tm, normSecs);
    sought := want;
    if !ok {
      return Wrong, sought, t0, t1;
    }
    var t;
    t, t0 := SearchAndHunt(z, want);
    t1 := t;
    r := FinishIf(z, t, saved);
    DeliveredBy(z, tm, normSecs, r, sought, t1, saved);
  }

  method FinishIf(z: Zone, t: Option<int>, saved: int) returns (r: Answer)
    requires ValidZone(z) && (t.Some? ==> IsTime(t.value)) && IsInt(saved)
    ensures r.Found? <==> t.Some? && ShownFrom(z, t.value, saved)
    ensures r.Found? ==> r.time == t.value + saved && LocalTime(z, r.time) == Some(r.tm)
  {
    if t.None? {
      return Wrong;
    }
    r := Finish(z, t.value, saved);
  }

  /** With the second in range nothing is saved, and the answer itself shows the request. */
  lemma NothingSaved(z: Zone, tm: Tm, normSecs: bool, r: Answer, sought: Tm, t0: int)
    requires ValidZone(z) && Meets(z, tm, normSecs, r, sought, t0) && (normSecs || 0 <= tm.sec < 60)
    ensures r.time == t0 && SameFields(r.tm, sought) && SecondOf(r.tm) == Denoted(tm)
    ensures tm.isdst >= 0 ==> r.tm.isdst == tm.isdst
  {
    CarriedDenotesTheSame(tm, normSecs);
  }

  /** A request that is in range is its own normal form. */
  lemma InRangeIsNormal(tm: Tm, normSecs: bool, your: Tm, ok: bool)
    requires Request(tm) && IntFields(tm)
    requires ok <==> CarriesFit(tm, normSecs) && IsInt(YearOf(DayOf(Carried(tm, normSecs))) - TM_YEAR_BASE)
    requires ok ==>
               var c := Carried(tm, normSecs);
               && ValidDate(your) && DayOf(your) == DayOf(c)
               && your == c.(mday := your.mday, mon := your.mon, year := your.year)
    ensures ok && your == tm
  {
    assert Carried(tm, normSecs) == tm;
    YearOfValid(tm);
    YearOfValid(your);
    SameDaySameDate(tm, your);
  }

  lemma SameDaySameDate(a: Tm, b: Tm)
    requires ValidDate(a) && ValidDate(b) && DayOf(a) == DayOf(b)
    ensures a.year == b.year && a.mon == b.mon && a.mday == b.mday
  {
    if a.year < b.year || (a.year == b.year && a.mon < b.mon) {
      EarlierDate(a, b);
    } else if b.year < a.year || (a.year == b.year && b.mon < a.mon) {
      EarlierDate(b, a);
    }
  }
}
