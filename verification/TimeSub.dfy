/** timesub: from a count of seconds to a calendar date, without leap seconds. */
module TimeSub {
  import opened Arithmetic
  import opened Basics
  import opened CInt
  import opened Calendar

  /**
    The years that timesub must be able to hold in an int: the one its accelerated loop
    ends in, with the year before, the local one, and the local one less 1900.
   */
  ghost predicate Representable(t: int, offset: int) {
    && INT_MIN < YearOf(Div(t, SECS_PER_DAY)) <= INT_MAX
    && IsInt(YearOf((t + offset) / SECS_PER_DAY))
    && IsInt(YearOf((t + offset) / SECS_PER_DAY) - TM_YEAR_BASE)
  }

  /**
    The weekday written for a day of year y that is a wday.  The code subtracts 1970 from the
    year in an int; where that wraps around, by 2^32 years, the weekday is four days late.
   */
  function WdayWritten(y: int, wday: int): int {
    if IsInt(y - EPOCH_YEAR) then wday else (wday + 4) % 7
  }

  /** The fields written for second s: its calendar date, but for the weekday. */
  ghost function Written(s: int): (tm: Tm) {
    var tm := TmOf(s);
    tm.(wday := WdayWritten(tm.year + TM_YEAR_BASE, tm.wday))
  }

  /** What timesub returns for an offset that its sums can hold: the fields of t + offset, or NULL. */
  ghost function BrokenDown(t: int, offset: int): Option<Tm> {
    if Representable(t, offset) then Some(Written(t + offset)) else None
  }

  /** The local day, counted from January 1 of the year of t in UTC, when s seconds are past its day. */
  ghost function DayIndex(t: int, s: int): int {
    Div(t, SECS_PER_DAY) - DaysToYear(YearOf(Div(t, SECS_PER_DAY))) + s / SECS_PER_DAY
  }

  /** The offset that is left of a long after a sum in a long and a count of days in an int. */
  ghost function OffsetUsed(t: int, offset: int): int {
    var s := Wrap64(Mod(t, SECS_PER_DAY) + offset);
    var n := DayIndex(t, s);
    s - Mod(t, SECS_PER_DAY) - (n - Wrap32(n)) * SECS_PER_DAY
  }

  // ---------- the accelerated year loop ----------

  /** A year that has begun by day d is not after the year of d, and conversely. */
  lemma BegunBy(y: int, d: int)
    ensures DaysToYear(y) <= d <==> y <= YearOf(d)
  {
    var z := YearOf(d);
    if y <= z {
      YearSpan(y, z);
    } else {
      YearSpan(z + 1, y);
    }
  }

  /** A step of tdays / 366 years never passes the year looked for. */
  lemma StepForward(y: int, tdays: int, delta: int)
    requires tdays >= YearLength(y)
    requires delta == 1 || 1 <= delta * 366 <= tdays
    ensures delta >= 1 && y + delta <= YearOf(DaysToYear(y) + tdays)
  {
    NextYear(y);
    if delta >= 1 {
      YearSpan(y, y + delta);
    }
    BegunBy(y + delta, DaysToYear(y) + tdays);
  }

  lemma StepBack(y: int, tdays: int, delta: int)
    requires tdays < 0
    requires delta == 1 || 1 <= delta * 366 <= -tdays
    ensures delta >= 1 && y - delta >= YearOf(DaysToYear(y) + tdays)
  {
    var z := y - (delta - 1);
    YearSpan(z, y);
    assert DaysToYear(z) > DaysToYear(y) + tdays by {
      assert 366 * (y - z) == delta * 366 - 366;
    }
    BegunBy(z, DaysToYear(y) + tdays);
  }

  lemma ExactYear(y: int, tdays: int)
    ensures 0 <= tdays < YearLength(y) <==> YearOf(DaysToYear(y) + tdays) == y
    ensures tdays < 0 ==> YearOf(DaysToYear(y) + tdays) < y
    ensures tdays >= YearLength(y) ==> YearOf(DaysToYear(y) + tdays) > y
  {
    var d := DaysToYear(y) + tdays;
    var z := YearOf(d);
    NextYear(y);
    if 0 <= tdays < YearLength(y) {
      YearUnique(d, y);
    } else if tdays < 0 && z >= y {
      YearSpan(y, z);
    } else if tdays >= YearLength(y) && z <= y {
      YearSpan(z + 1, y + 1);
    }
  }

  /** A quotient too small for an int means a year too small for an int. */
  lemma FarPast(y: int, tdays: int)
    requires y <= EPOCH_YEAR && tdays <= 366 * INT_MIN
    ensures YearOf(DaysToYear(y) + tdays) < INT_MIN
  {
    YearSpan(y, EPOCH_YEAR);
    DaysToYearClosed(INT_MIN);
    LeapsFloor(INT_MIN - 1);
    var z := YearOf(DaysToYear(y) + tdays);
    if z >= INT_MIN {
      YearSpan(INT_MIN, z);
    }
  }

  /**
    The year of a day number: steps of at least one and at most |tdays| / 366 years.
    It stops with NULL exactly when the year, or the year before, does not fit an int: the
    leap years are counted through the year before, which for INT_MIN wraps around.
   */
  method FindYear(days: int) returns (ok: bool, y: int, tdays: int)
    ensures ok <==> INT_MIN < YearOf(days) <= INT_MAX
    ensures ok ==> y == YearOf(days) && tdays == days - DaysToYear(y)
  {
    y, tdays := EPOCH_YEAR, days;
    ghost var goal := YearOf(days);
    while tdays < 0 || tdays >= YearLength(y)
      invariant IsInt(y) && (EPOCH_YEAR <= y <= goal || goal <= y <= EPOCH_YEAR)
      invariant y > INT_MIN ==> DaysToYear(y) + tdays == days
      invariant y == INT_MIN ==> tdays < 0
      decreases if y <= goal then goal - y else y - goal
    {
      if y > INT_MIN {
        ExactYear(y, tdays);
      }
      ok, y, tdays := StepYear(y, tdays);
      if !ok {
        return;
      }
    }
    ExactYear(y, tdays);
    ok := true;
  }

  /** One round of the loop. */
  method StepYear(y: int, tdays: int) returns (ok: bool, newy: int, rest: int)
    requires IsInt(y) && (tdays < 0 || tdays >= YearLength(y))
    requires if tdays < 0 then y <= EPOCH_YEAR else y >= EPOCH_YEAR
    ensures y == INT_MIN ==> !ok
    ensures y != INT_MIN ==>
              var goal := YearOf(DaysToYear(y) + tdays);
              && (!ok ==> !(INT_MIN < goal <= INT_MAX))
              && (ok ==> IsInt(newy) && (if tdays < 0 then goal <= newy < y else y < newy <= goal))
    ensures ok && newy > INT_MIN ==> DaysToYear(newy) + rest == DaysToYear(y) + tdays
    ensures ok && newy == INT_MIN ==> rest < 0
  {
    newy, rest := y, tdays;
    var fits, idelta := StepSize(y, tdays);
    if !fits {
      return false, newy, rest;
    }
    var (sum, overflow) := IncrementOverflow(y, idelta);
    if overflow {
      return false, newy, rest;
    }
    newy := sum;
    rest := DaysLeft(y, newy, tdays);
    ok := true;
  }

  /** The days left after a step: the right ones, or far too few after a step to INT_MIN. */
  method DaysLeft(y: int, newy: int, tdays: int) returns (rest: int)
    requires IsInt(y) && IsInt(newy) && y > INT_MIN
    ensures newy > INT_MIN ==> DaysToYear(newy) + rest == DaysToYear(y) + tdays
    ensures newy == INT_MIN && YearOf(DaysToYear(y) + tdays) <= newy ==> rest < 0
  {
    var leapdays := LeapDays(y, newy);
    rest := tdays - (newy - y) * 365 - leapdays;
    ExactYear(newy, DaysToYear(y) + tdays - DaysToYear(newy));
  }

  /** The years of a step, at least one, if the quotient fits an int. */
  method StepSize(y: int, tdays: int) returns (fits: bool, idelta: int)
    requires IsInt(y) && (tdays < 0 || tdays >= YearLength(y))
    requires if tdays < 0 then y <= EPOCH_YEAR else y >= EPOCH_YEAR
    ensures var goal := YearOf(DaysToYear(y) + tdays);
            && (!fits ==> !IsInt(goal))
            && (fits ==> IsInt(idelta) && if tdays < 0 then idelta <= -1 && goal <= y + idelta else idelta >= 1 && y + idelta <= goal)
  {
    var tdelta := Div(tdays, 366);
    idelta := Wrap32(tdelta);
    StepStays(y, tdays);
    fits := !(tdelta - idelta >= 1 || idelta - tdelta >= 1);
    if fits && idelta == 0 {
      idelta := if tdays < 0 then -1 else 1;
    }
  }

  /** One step of the loop, taken from a year that is not the one looked for. */
  lemma StepStays(y: int, tdays: int)
    requires IsInt(y) && (tdays < 0 || tdays >= YearLength(y))
    ensures var goal := YearOf(DaysToYear(y) + tdays);
            var delta := if Div(tdays, 366) == 0 then (if tdays < 0 then -1 else 1) else Div(tdays, 366);
            && (tdays >= 0 ==> delta >= 1 && y + delta <= goal)
            && (tdays < 0 ==> delta <= -1 && goal <= y + delta)
            && (tdays < 0 && y <= EPOCH_YEAR && delta < INT_MIN ==> goal < INT_MIN)
  {
    var tdelta := Div(tdays, 366);
    if tdays >= 0 {
      StepForward(y, tdays, if tdelta == 0 then 1 else tdelta);
    } else {
      StepBack(y, tdays, if tdelta == 0 then 1 else -tdelta);
      if y <= EPOCH_YEAR && tdelta < INT_MIN {
        FarPast(y, tdays);
      }
    }
  }

  /** The leap years before a year, the year before taken in an int. */
  function LeapsBefore(y: int): (n: int)
    requires IsInt(y)
    ensures -530_000_000 <= n <= 530_000_000
    ensures y > INT_MIN ==> n == LeapsThruEndOf(y - 1)
    ensures y == INT_MIN ==> n == LeapsThruEndOf(y - 1) + ALL_LEAP_YEARS
  {
    LeapsBound(Wrap32(y - 1));
    LeapsOfAllInts();
    LeapsThruEndOf(Wrap32(y - 1))
  }

  /**
    The leap days of a step.  For a step to INT_MIN the year before wraps around, and they are
    too many by the leap years of all ints.
   */
  method LeapDays(y: int, newy: int) returns (leapdays: int)
    requires IsInt(y) && IsInt(newy) && y > INT_MIN
    ensures DaysToYear(newy) - DaysToYear(y) ==
            (newy - y) * 365 + leapdays - if newy == INT_MIN then ALL_LEAP_YEARS else 0
  {
    var from, to := LeapsBefore(y), LeapsBefore(newy);
    leapdays := Wrap32(to - from);
    YearsApart(y, newy, from, if newy == INT_MIN then to - ALL_LEAP_YEARS else to);
  }

  lemma YearsApart(y: int, newy: int, from: int, to: int)
    requires from == LeapsThruEndOf(y - 1) && to == LeapsThruEndOf(newy - 1)
    ensures DaysToYear(newy) - DaysToYear(y) == (newy - y) * 365 + to - from
  {
    DaysToYearClosed(newy);
    DaysToYearClosed(y);
  }

  const ALL_LEAP_YEARS := 1_041_529_570

  lemma LeapsOfAllInts()
    ensures LeapsThruEndOf(INT_MAX) - LeapsThruEndOf(INT_MIN - 1) == ALL_LEAP_YEARS
  {
    LeapsFloor(INT_MAX);
    LeapsFloor(INT_MIN - 1);
  }

  // ---------- the offset ----------

  /** Carries a second count that is out of range into the day, which is an int. */
  method CarrySeconds(days: int, seconds: int) returns (idays: int, rem: int)
    requires IsInt(days)
    ensures idays == Wrap32(days + seconds / SECS_PER_DAY) && rem == seconds % SECS_PER_DAY
  {
    idays, rem := days, seconds;
    ghost var carried := 0;
    while rem < 0
      invariant carried * SECS_PER_DAY + rem == seconds && idays == Wrap32(days + carried)
      invariant rem < SECS_PER_DAY || rem == seconds
      decreases -rem
    {
      Wrap32Sum(days + carried, -1);
      rem := rem + SECS_PER_DAY;
      idays := Wrap32(idays - 1);
      carried := carried - 1;
    }
    while rem >= SECS_PER_DAY
      invariant carried * SECS_PER_DAY + rem == seconds && idays == Wrap32(days + carried) && rem >= 0
      decreases rem
    {
      Wrap32Sum(days + carried, 1);
      rem := rem - SECS_PER_DAY;
      idays := Wrap32(idays + 1);
      carried := carried + 1;
    }
    DivUnique(seconds, SECS_PER_DAY, carried, rem);
  }

  /** Carries a negative day of the year into the years before. */
  method CarryBack(year: int, yday: int) returns (ok: bool, y: int, idays: int)
    requires IsInt(year) && yday < 0
    ensures ok <==> IsInt(YearOf(DaysToYear(year) + yday))
    ensures ok ==> y == YearOf(DaysToYear(year) + yday) && idays == DaysToYear(year) + yday - DaysToYear(y)
  {
    ghost var day := DaysToYear(year) + yday;
    y, idays := year, yday;
    ExactYear(y, idays);
    while idays < 0
      invariant IsInt(y) && DaysToYear(y) + idays == day && idays < YearLength(y)
      invariant YearOf(day) <= y <= year
      decreases y - YearOf(day)
    {
      ExactYear(y, idays);
      var (newy, overflow) := IncrementOverflow(y, -1);
      if overflow {
        return false, y, idays;
      }
      NextYear(newy);
      y := newy;
      idays := idays + YearLength(y);
    }
    ExactYear(y, idays);
    ok := true;
  }

  /** Carries a day past the end of the year into the years after. */
  method CarryAhead(year: int, yday: int) returns (ok: bool, y: int, idays: int)
    requires IsInt(year) && yday >= 0
    ensures ok <==> IsInt(YearOf(DaysToYear(year) + yday))
    ensures ok ==> y == YearOf(DaysToYear(year) + yday) && idays == DaysToYear(year) + yday - DaysToYear(y)
  {
    ghost var day := DaysToYear(year) + yday;
    y, idays := year, yday;
    while idays >= YearLength(y)
      invariant IsInt(y) && DaysToYear(y) + idays == day && idays >= 0
      decreases idays
    {
      ExactYear(y, idays);
      NextYear(y);
      idays := idays - YearLength(y);
      var (newy, overflow) := IncrementOverflow(y, 1);
      if overflow {
        return false, y, idays;
      }
      y := newy;
    }
    ExactYear(y, idays);
    ok := true;
  }

  // ---------- the fields ----------

  /** The weekday of day idays of year y as the code computes it, every sum in an int. */
  function WdayComputed(y: int, idays: int): int
    requires IsInt(y)
  {
    var w := Mod(Wrap32(EPOCH_WDAY + Mod(Wrap32(y - EPOCH_YEAR), 7) * (365 % 7)
                        + LeapsBefore(y) - LeapsBefore(EPOCH_YEAR) + idays), 7);
    if w < 0 then w + 7 else w
  }

  /**
    The weekday by C remainders is the weekday of the day count if and only if the year less
    1970 fits an int; else it is four days late.
   */
  lemma WeekdayByRemainders(y: int, idays: int)
    requires INT_MIN + TM_YEAR_BASE <= y <= INT_MAX && 0 <= idays <= 366
    ensures WdayComputed(y, idays) == WdayWritten(y, Weekday(DaysToYear(y) + idays))
    ensures WdayComputed(y, idays) == Weekday(DaysToYear(y) + idays) <==> IsInt(y - EPOCH_YEAR)
  {
    var k := if IsInt(y - EPOCH_YEAR) then 0 else 1;
    ComputedByCycles(y, idays, k);
    LateByCycles(y, idays, k);
    RightOrLate(WdayComputed(y, idays), CycleSum(y, idays, k), DaysToYear(y) + idays + EPOCH_WDAY, k);
  }

  lemma RightOrLate(w: int, x: int, d: int, k: int)
    requires w == x % 7 && x % 7 == (d + 4 * k) % 7 && (k == 0 || k == 1)
    ensures w == if k == 0 then d % 7 else (d % 7 + 4) % 7
    ensures w == d % 7 <==> k == 0
  {
    FourDaysLate(d);
  }

  /** The sum of the code without wrap-around, its year taken 2^32 later k times. */
  function CycleSum(y: int, idays: int, k: int): int {
    EPOCH_WDAY + Mod(y - EPOCH_YEAR + k * 0x1_0000_0000, 7) + LeapsThruEndOf(y - 1) - LeapsThruEndOf(EPOCH_YEAR - 1) + idays
  }

  lemma ComputedByCycles(y: int, idays: int, k: int)
    requires INT_MIN + TM_YEAR_BASE <= y <= INT_MAX && 0 <= idays <= 366
    requires k == if IsInt(y - EPOCH_YEAR) then 0 else 1
    ensures WdayComputed(y, idays) == CycleSum(y, idays, k) % 7
  {
    Wrap32Shift(y - EPOCH_YEAR, k);
    var x, m, l := CycleSum(y, idays, k), Mod(Wrap32(y - EPOCH_YEAR), 7), LeapsBefore(y);
    assert Wrap32(y - EPOCH_YEAR) == y - EPOCH_YEAR + k * 0x1_0000_0000;
    assert x == EPOCH_WDAY + m + l - LeapsBefore(EPOCH_YEAR) + idays;
    assert Wrap32(x) == x;
    CRemainder(x);
  }

  /** 2^32 years later by the remainder is four days later in the week. */
  lemma LateByCycles(y: int, idays: int, k: int)
    ensures CycleSum(y, idays, k) % 7 == (DaysToYear(y) + idays + EPOCH_WDAY + 4 * k) % 7
  {
    DaysToYearClosed(y);
    var a := y - EPOCH_YEAR;
    var q := Div(a + k * 0x1_0000_0000, 7);
    var x := CycleSum(y, idays, k);
    assert DaysToYear(y) + idays + EPOCH_WDAY + 4 * k == x + 7 * (52 * a + q - 613566756 * k);
    DivShift(x, 7, 52 * a + q - 613566756 * k);
  }

  lemma FourDaysLate(day: int)
    ensures (day + 4) % 7 == (day % 7 + 4) % 7 != day % 7
  {
  }

  lemma CRemainder(x: int)
    ensures var w := Mod(x, 7); (if w < 0 then w + 7 else w) == x % 7
  {
    if x < 0 {
      var q, r := (-x) / 7, (-x) % 7;
      if r == 0 {
        DivUnique(x, 7, -q, 0);
      } else {
        DivUnique(x, 7, -q - 1, 7 - r);
      }
    }
  }

  method FindMonth(leap: bool, yday: int) returns (mon: int, mday: int)
    requires 0 <= yday < MonthStart(leap, 12)
    ensures mon == MonthOf(leap, yday) && mday == yday - MonthStart(leap, mon) + 1
  {
    var idays := yday;
    mon := 0;
    while idays >= MonthLength(leap, mon)
      invariant 0 <= mon < 12 && idays == yday - MonthStart(leap, mon) && idays >= 0
      decreases 12 - mon
    {
      assert MonthStart(leap, mon + 1) == MonthStart(leap, mon) + MonthLength(leap, mon);
      idays := idays - MonthLength(leap, mon);
      mon := mon + 1;
    }
    mday := idays + 1;
    MonthUnique(leap, mon, MonthOf(leap, yday), yday);
  }

  /** tm_wday. */
  method WeekdayField(y: int, idays: int) returns (wday: int)
    requires INT_MIN + TM_YEAR_BASE <= y <= INT_MAX && 0 <= idays <= 366
    ensures wday == WdayWritten(y, Weekday(DaysToYear(y) + idays))
    ensures wday == Weekday(DaysToYear(y) + idays) <==> IsInt(y - EPOCH_YEAR)
  {
    wday := Mod(Wrap32(EPOCH_WDAY + Mod(Wrap32(y - EPOCH_YEAR), 7) * (365 % 7)
                       + LeapsBefore(y) - LeapsBefore(EPOCH_YEAR) + idays), 7);
    if wday < 0 {
      wday := wday + 7;
    }
    WeekdayByRemainders(y, idays);
  }

  /** The broken-down time from a year, a day of it and a second of the day. */
  method Fields(y: int, idays: int, seconds: int) returns (tm: Tm)
    requires INT_MIN + TM_YEAR_BASE <= y <= INT_MAX && 0 <= idays < YearLength(y) && 0 <= seconds < SECS_PER_DAY
    ensures ValidTime(tm) && ValidDate(tm) && tm.year == y - TM_YEAR_BASE && tm.isdst == 0
    ensures SecondOf(tm) == (DaysToYear(y) + idays) * SECS_PER_DAY + seconds
    ensures Valid(tm.(wday := Weekday(DayOf(tm)))) && tm.wday == WdayWritten(y, Weekday(DayOf(tm)))
    ensures Valid(tm) <==> IsInt(y - EPOCH_YEAR)
  {
    var wday := WeekdayField(y, idays);
    YearIsTwelveMonths(IsLeap(y));
    var mon, mday := FindMonth(IsLeap(y), idays);
    var hour := Div(seconds, 3600);
    var rem := Mod(seconds, 3600);
    tm := Tm(Mod(rem, 60), Div(rem, 60), hour, mday, mon, y - TM_YEAR_BASE, wday, idays, 0);
    assert DayOf(tm) == DaysToYear(y) + idays;
  }

  /** The fields of a second are those that Fields writes for its year, day and second of the day. */
  lemma FieldsAreWritten(tm: Tm, s: int)
    requires 0 <= tm.mon < 12 && Valid(tm.(wday := Weekday(DayOf(tm)))) && SecondOf(tm) == s && tm.isdst == 0
    requires tm.wday == WdayWritten(tm.year + TM_YEAR_BASE, Weekday(DayOf(tm)))
    ensures tm == Written(s)
  {
    TmUnique(tm.(wday := Weekday(DayOf(tm))), TmOf(s));
  }

  /**
    timesub.  It terminates for every time and offset and yields the fields of the one date
    whose day count is the time plus the offset, as far as a long and an int hold the offset,
    or NULL exactly when a year does not fit.
   */
  method Compute(t: int, offset: int) returns (r: Option<Tm>)
    ensures r == BrokenDown(t, OffsetUsed(t, offset))
  {
    var tdays := Div(t, SECS_PER_DAY);
    var rem := t - tdays * SECS_PER_DAY;
    var ok, y, days := FindYear(tdays);
    if !ok {
      return None;
    }
    ExactYear(y, days);
    // The day count takes a detour through seconds, rounded by one half.
    var seconds := ((days * SECS_PER_DAY) as real + 0.5).Floor;
    assert seconds == days * SECS_PER_DAY;
    days := seconds / SECS_PER_DAY;
    rem := rem + (seconds - days * SECS_PER_DAY);
    rem := Wrap64(rem + offset);
    var idays;
    ghost var used := t + OffsetUsed(t, offset);
    idays, rem := CarrySeconds(days, rem);
    ghost var day := DaysToYear(y) + idays;
    assert day * SECS_PER_DAY + rem == used;
    DivUnique(used, SECS_PER_DAY, day, rem);
    if idays < 0 {
      ok, y, idays := CarryBack(y, idays);
    } else {
      ok, y, idays := CarryAhead(y, idays);
    }
    if !ok {
      return None;
    }
    var (year, overflow) := IncrementOverflow(y, -TM_YEAR_BASE);
    if overflow {
      return None;
    }
    NextYear(y);
    var tm := Fields(y, idays, rem);
    r := Some(tm);
    assert DaysToYear(y) + idays == day;
    FieldsAreWritten(tm, used);
  }

  // ---------- what the answer means ----------

  /** The offset is used as it is if and only if the long sum and the int count of days hold it. */
  lemma OffsetIsUsed(t: int, offset: int)
    requires IsTime(offset)
    ensures OffsetUsed(t, offset) == offset <==>
            IsTime(Mod(t, SECS_PER_DAY) + offset) && IsInt(DayIndex(t, Mod(t, SECS_PER_DAY) + offset))
  {
    var x := Mod(t, SECS_PER_DAY) + offset;
    var s := Wrap64(x);
    var n := DayIndex(t, s);
    Wrap64Shift(x, 0);
    Wrap32Shift(n, 0);
    var i, k := (x - s) / 0x1_0000_0000_0000_0000, (n - Wrap32(n)) / 0x1_0000_0000;
    assert x - s == i * 0x1_0000_0000_0000_0000 && n - Wrap32(n) == k * 0x1_0000_0000;
    assert offset - OffsetUsed(t, offset) == 0x1_0000_0000 * (i * 0x1_0000_0000 + k * SECS_PER_DAY);
    if i == 1 || i == -1 {
      NoWholeDays(i, k);
    }
  }

  /** 2^32 seconds are no whole number of days. */
  lemma NoWholeDays(i: int, k: int)
    requires i == 1 || i == -1
    ensures i * 0x1_0000_0000 + k * SECS_PER_DAY != 0
  {
  }

  /** Every offset that fits an int is used as it is. */
  lemma IntOffsetIsUsed(t: int, offset: int)
    requires IsInt(offset)
    ensures OffsetUsed(t, offset) == offset
  {
    var d := Div(t, SECS_PER_DAY);
    NextYear(YearOf(d));
    OffsetIsUsed(t, offset);
  }

  /**
    The fields written are those of the only valid date of that second, but for the weekday,
    and that one is right if and only if the year less 1970 fits an int.
   */
  lemma BrokenDownIsTheDate(t: int, offset: int, tm: Tm)
    requires Valid(tm) && SecondOf(tm) == t + offset && tm.isdst == 0
    ensures BrokenDown(t, offset).Some? ==> BrokenDown(t, offset).value.(wday := tm.wday) == tm
    ensures BrokenDown(t, offset).Some? ==>
              (BrokenDown(t, offset).value == tm <==> IsInt(tm.year + TM_YEAR_BASE - EPOCH_YEAR))
    ensures BrokenDown(t, offset).Some? <==>
              IsInt(tm.year) && IsInt(tm.year + TM_YEAR_BASE) && INT_MIN < YearOf(Div(t, SECS_PER_DAY)) <= INT_MAX
  {
    TmUnique(tm, TmOf(t + offset));
    YearOfDate(t + offset);
    FourDaysLate(DayOf(tm) + EPOCH_WDAY);
  }
}
