/** The first half of time2sub: bringing the fields of a struct tm into range. */
module Normalize {
  import opened Arithmetic
  import opened CInt
  import opened Calendar

  /**
    normalize_overflow: carries units into tens, rounding down for negative units, and
    reports whether tens overflowed.
   */
  function NormalizeOverflow(tens: int, units: int, base: int): (r: (int, int, bool))
    requires IsInt(tens) && IsInt(units) && base > 0
    ensures r.1 == units % base && 0 <= r.1 < base
    ensures r.2 <==> !IsInt(tens + units / base)
    ensures IsInt(r.0) && (!r.2 ==> r.0 == tens + units / base && r.0 * base + r.1 == tens * base + units)
  {
    var delta := if units >= 0 then units / base else -1 - (-1 - units) / base;
    FloorByTruncation(units, base);
    DivInt(units, base);
    var (sum, overflow) := IncrementOverflow(tens, delta);
    (sum, units - delta * base, overflow)
  }

  lemma FloorByTruncation(units: int, base: int)
    requires base > 0
    ensures units / base == if units >= 0 then units / base else -1 - (-1 - units) / base
  {
    if units < 0 {
      NegDiv(units, base);
      assert -(units + 1) == -1 - units;
    }
  }

  lemma MulGrows(k: int, n: int)
    requires k >= 0 && n >= 1
    ensures k * n >= k
  {
  }

  lemma DivInt(units: int, base: int)
    requires IsInt(units) && base > 0
    ensures IsInt(units / base)
  {
    var q, r := units / base, units % base;
    if q >= 0 {
      MulGrows(q, base);
    } else if q < INT_MIN {
      MulGrows(-(q + 1), base);
    }
  }

  /** The fields after carrying, with no bound: what the request denotes. */
  function Carried(tm: Tm, normSecs: bool): (r: Tm) {
    var sec := if normSecs then tm.sec % 60 else tm.sec;
    var min := MinCarried(tm, normSecs);
    var hour := HourCarried(tm, normSecs);
    tm.(sec := sec, min := min % 60, hour := hour % 24, mday := MdayCarried(tm, normSecs),
        mon := tm.mon % 12, year := tm.year + tm.mon / 12)
  }

  function MinCarried(tm: Tm, normSecs: bool): int {
    tm.min + if normSecs then tm.sec / 60 else 0
  }

  function HourCarried(tm: Tm, normSecs: bool): int {
    tm.hour + MinCarried(tm, normSecs) / 60
  }

  function MdayCarried(tm: Tm, normSecs: bool): int {
    tm.mday + HourCarried(tm, normSecs) / 24
  }

  /** The second denoted by fields of any size: twelve months a year, then plain arithmetic. */
  ghost function Denoted(tm: Tm): int {
    var y := tm.year + tm.mon / 12 + TM_YEAR_BASE;
    (DaysToYear(y) + MonthStart(IsLeap(y), tm.mon % 12) + tm.mday - 1) * SECS_PER_DAY
      + tm.hour * 3600 + tm.min * 60 + tm.sec
  }

  /** Carrying keeps the denoted second. */
  lemma CarriedDenotesTheSame(tm: Tm, normSecs: bool)
    ensures SecondOf(Carried(tm, normSecs)) == Denoted(tm)
  {
    var c := Carried(tm, normSecs);
    var y := tm.year + tm.mon / 12 + TM_YEAR_BASE;
    var d := DaysToYear(y) + MonthStart(IsLeap(y), tm.mon % 12) - 1;
    assert DayOf(c) == d + c.mday;
    var min, hour := MinCarried(tm, normSecs), HourCarried(tm, normSecs);
    assert c.min == min - 60 * (min / 60);
    assert c.hour == hour - 24 * (hour / 24);
    assert normSecs ==> c.sec == tm.sec - 60 * (tm.sec / 60);
  }

  /** The int carries of time2sub that can overflow. */
  predicate CarriesFit(tm: Tm, normSecs: bool) {
    IsInt(MinCarried(tm, normSecs)) && IsInt(HourCarried(tm, normSecs)) && IsInt(MdayCarried(tm, normSecs))
  }

  predicate IntFields(tm: Tm) {
    IsInt(tm.sec) && IsInt(tm.min) && IsInt(tm.hour) && IsInt(tm.mday) && IsInt(tm.mon) && IsInt(tm.year)
  }

  // ---------- days out of the month ----------

  /** The first day of a month, as a day number. */
  function MonthDay(y: int, mon: int): int
    requires 0 <= mon < 12
  {
    DaysToYear(y) + MonthStart(IsLeap(y), mon)
  }

  /** From a month to the same month a year later, as time2sub counts it. */
  lemma SameMonthNextYear(y: int, mon: int)
    requires 0 <= mon < 12
    ensures MonthDay(y + 1, mon) - MonthDay(y, mon) == YearLength(if 1 < mon then y + 1 else y)
  {
    NextYear(y);
    YearIsTwelveMonths(true);
    YearIsTwelveMonths(false);
  }

  /**
    Brings the day of the month into range, moving month and year.  The year stays far
    inside a 64-bit long, so none of the overflow checks on it can fire.
   */
  method CarryMonthDay(year: int, month: int, day: int) returns (y: int, mon: int, mday: int)
    requires -0x1_0000_0000 <= year <= 0x1_0000_0000 && 0 <= month < 12 && IsInt(day)
    ensures 0 <= mon < 12 && 1 <= mday <= MonthLength(IsLeap(y), mon)
    ensures MonthDay(y, mon) + mday == MonthDay(year, month) + day
    ensures -0x4_0000_0000 <= y <= 0x4_0000_0000
  {
    y, mon, mday := year, month, day;
    while mday <= 0
      invariant MonthDay(y, mon) + mday == MonthDay(year, month) + day
      invariant y + mday >= year + day && y <= year && (mday <= 366 || mday == day)
      decreases -mday
    {
      y := y - 1;
      SameMonthNextYear(y, mon);
      mday := mday + YearLength(if 1 < mon then y + 1 else y);
    }
    assert -0x2_0000_0000 <= y <= 0x1_0000_0000 && 1 <= mday <= 0x7fff_ffff;
    ghost var y0, mday0 := y, mday;
    while mday > 366
      invariant MonthDay(y, mon) + mday == MonthDay(year, month) + day
      invariant mday >= 1 && y0 <= y && y + mday <= y0 + mday0
      decreases mday
    {
      SameMonthNextYear(y, mon);
      mday := mday - YearLength(if 1 < mon then y + 1 else y);
      y := y + 1;
    }
    assert -0x2_0000_0000 <= y <= 0x3_0000_0000;
    ghost var y1 := y;
    while mday > MonthLength(IsLeap(y), mon)
      invariant 0 <= mon < 12 && 1 <= mday <= 366
      invariant MonthDay(y, mon) + mday == MonthDay(year, month) + day
      invariant y1 <= y <= y1 + 366 - mday
      decreases mday
    {
      mday := mday - MonthLength(IsLeap(y), mon);
      NextYear(y);
      YearIsTwelveMonths(IsLeap(y));
      mon := mon + 1;
      if mon >= 12 {
        mon := 0;
        y := y + 1;
      }
    }
  }

  /** The carries of the time of day. */
  method TimeFields(tm: Tm, normSecs: bool) returns (ok: bool, your: Tm)
    requires IntFields(tm)
    ensures ok <==> CarriesFit(tm, normSecs)
    ensures ok ==> your == Carried(tm, normSecs).(mon := tm.mon, year := tm.year) && IsInt(your.mday)
  {
    your := tm;
    if normSecs {
      var (min, sec, overflow) := NormalizeOverflow(your.min, your.sec, 60);
      if overflow {
        return false, your;
      }
      your := your.(min := min, sec := sec);
    }
    var (hour, min, overflow1) := NormalizeOverflow(your.hour, your.min, 60);
    if overflow1 {
      return false, your;
    }
    your := your.(hour := hour, min := min);
    var (mday, hour', overflow2) := NormalizeOverflow(your.mday, your.hour, 24);
    if overflow2 {
      return false, your;
    }
    your := your.(mday := mday, hour := hour');
    ok := true;
  }

  /** The actual year of the request, in a long. */
  method ActualYear(tm: Tm) returns (y: int, mon: int)
    requires IsInt(tm.mon) && IsInt(tm.year)
    ensures y == tm.year + tm.mon / 12 + TM_YEAR_BASE && mon == tm.mon % 12
  {
    FloorByTruncation(tm.mon, 12);
    var delta := if tm.mon >= 0 then tm.mon / 12 else -1 - (-1 - tm.mon) / 12;
    mon := tm.mon - delta * 12;
    var (y', overflow) := LongIncrementOverflow(tm.year, delta);
    var (y'', overflow') := LongIncrementOverflow(y', TM_YEAR_BASE);
    assert !overflow && !overflow';   // a 64-bit long always holds the year
    y := y'';
  }

  /**
    The normalisation of time2sub.  The answer is a valid date on the denoted day with the
    carried time of day; it is refused exactly when a carry or the year overflows an int.
   */
  method NormalizeFields(tm: Tm, normSecs: bool) returns (ok: bool, your: Tm)
    requires IntFields(tm)
    ensures ok <==> CarriesFit(tm, normSecs) && IsInt(YearOf(DayOf(Carried(tm, normSecs))) - TM_YEAR_BASE)
    ensures ok ==>
              var c := Carried(tm, normSecs);
              && ValidDate(your) && DayOf(your) == DayOf(c) && IsInt(your.year)
              && your == c.(mday := your.mday, mon := your.mon, year := your.year)
  {
    ok, your := TimeFields(tm, normSecs);
    if !ok {
      return;
    }
    ghost var c := Carried(tm, normSecs);
    var y, mon := ActualYear(tm);
    var year, month, day := CarryMonthDay(y, mon, your.mday);
    assert MonthDay(year, month) + day == DayOf(c) + 1;
    your := your.(year := year - TM_YEAR_BASE, mon := month, mday := day);
    YearOfValid(your);
    ok := Wrap32(your.year) == your.year;
  }
}
