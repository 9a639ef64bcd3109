/** C integer arithmetic that differs from Dafny's: truncating division and wrap-around. */
module CInt {
  import opened Arithmetic

  const INT_MIN: int := -0x8000_0000
  const INT_MAX: int := 0x7fff_ffff
  const TIME_MIN: int := -0x8000_0000_0000_0000
  const TIME_MAX: int := 0x7fff_ffff_ffff_ffff

  predicate IsInt(x: int) {
    INT_MIN <= x <= INT_MAX
  }

  predicate IsTime(x: int) {
    TIME_MIN <= x <= TIME_MAX
  }

  /** Division that truncates toward zero, for a positive divisor. */
  function Div(a: int, b: int): int
    requires b > 0
  {
    if a >= 0 then a / b else -((-a) / b)
  }

  /** The remainder with the sign of the dividend, for a positive divisor. */
  function Mod(a: int, b: int): int
    requires b > 0
  {
    a - Div(a, b) * b
  }

  /** Conversion to a 32-bit int. */
  function Wrap32(x: int): (r: int)
    ensures IsInt(r)
    ensures IsInt(x) ==> r == x
  {
    (x + 0x8000_0000) % 0x1_0000_0000 - 0x8000_0000
  }

  /** Conversion to a 64-bit time_t or long. */
  function Wrap64(x: int): (r: int)
    ensures IsTime(r)
    ensures IsTime(x) ==> r == x
  {
    (x + 0x8000_0000_0000_0000) % 0x1_0000_0000_0000_0000 - 0x8000_0000_0000_0000
  }

  /** A conversion changes a value by a multiple of 2^32 only, and gives one value for all of those. */
  lemma Wrap32Shift(x: int, k: int)
    ensures Wrap32(x + k * 0x1_0000_0000) == Wrap32(x)
    ensures (x - Wrap32(x)) % 0x1_0000_0000 == 0
  {
    DivShift(x + 0x8000_0000, 0x1_0000_0000, k);
    var q := (x + 0x8000_0000) / 0x1_0000_0000;
    assert x - Wrap32(x) == q * 0x1_0000_0000;
  }

  lemma Wrap64Shift(x: int, k: int)
    ensures Wrap64(x + k * 0x1_0000_0000_0000_0000) == Wrap64(x)
    ensures (x - Wrap64(x)) % 0x1_0000_0000_0000_0000 == 0
  {
    DivShift(x + 0x8000_0000_0000_0000, 0x1_0000_0000_0000_0000, k);
    var q := (x + 0x8000_0000_0000_0000) / 0x1_0000_0000_0000_0000;
    assert x - Wrap64(x) == q * 0x1_0000_0000_0000_0000;
  }

  /** Steps of wrapping arithmetic may be wrapped at the end instead. */
  lemma Wrap32Sum(x: int, d: int)
    ensures Wrap32(Wrap32(x) + d) == Wrap32(x + d)
  {
    Wrap32Shift(x, 0);
    var k := (x - Wrap32(x)) / 0x1_0000_0000;
    Wrap32Shift(Wrap32(x) + d, k);
  }

  lemma Wrap64Sum(x: int, d: int)
    ensures Wrap64(Wrap64(x) + d) == Wrap64(x + d) && Wrap64(d + Wrap64(x)) == Wrap64(d + x)
  {
    Wrap64Shift(x, 0);
    var k := (x - Wrap64(x)) / 0x1_0000_0000_0000_0000;
    Wrap64Shift(Wrap64(x) + d, k);
  }

  /** Adds in unsigned arithmetic and reports whether the int sum is wrong. */
  function IncrementOverflow(number: int, delta: int): (r: (int, bool))
    requires IsInt(number) && IsInt(delta)
    ensures IsInt(r.0)
    ensures r.1 <==> !IsInt(number + delta)
    ensures !r.1 ==> r.0 == number + delta
  {
    var sum := Wrap32(number + delta);
    (sum, if delta >= 0 then sum < number else sum > number)
  }

  /** The same for a 64-bit long. */
  function LongIncrementOverflow(number: int, delta: int): (r: (int, bool))
    requires IsTime(number) && IsInt(delta)
    ensures IsTime(r.0)
    ensures r.1 <==> !IsTime(number + delta)
    ensures !r.1 ==> r.0 == number + delta
  {
    var sum := Wrap64(number + delta);
    (sum, if delta >= 0 then sum < number else sum > number)
  }
}

/**
  The proleptic Gregorian calendar, counted from the epoch one year at a time.  This is
  the reference against which the accelerated code is proved.
 */
module Calendar {
  import opened Arithmetic
  import opened CInt

  const SECS_PER_DAY := 86400
  const EPOCH_YEAR := 1970
  const EPOCH_WDAY := 4
  const TM_YEAR_BASE := 1900
  const YEARS_PER_REPEAT := 400
  const DAYS_PER_REPEAT := 146097
  const SECS_PER_REPEAT := 400 * 31556952

  predicate IsLeap(y: int) {
    y % 4 == 0 && (y % 100 != 0 || y % 400 == 0)
  }

  function YearLength(y: int): int {
    if IsLeap(y) then 366 else 365
  }

  /** The day number of January 1 of year y, where January 1, 1970 is day 0. */
  function DaysToYear(y: int): int
    decreases if y >= EPOCH_YEAR then y - EPOCH_YEAR else EPOCH_YEAR - y
  {
    if y == EPOCH_YEAR then 0
    else if y > EPOCH_YEAR then DaysToYear(y - 1) + YearLength(y - 1)
    else DaysToYear(y + 1) - YearLength(y)
  }

  function MonthLength(leap: bool, m: int): int
    requires 0 <= m < 12
  {
    if m == 1 then (if leap then 29 else 28)
    else if m == 3 || m == 5 || m == 8 || m == 10 then 30 else 31
  }

  /** Days of the year before month m. */
  function MonthStart(leap: bool, m: int): int
    requires 0 <= m <= 12
  {
    if m == 0 then 0 else MonthStart(leap, m - 1) + MonthLength(leap, m - 1)
  }

  /** The weekday of a day number, Sunday being 0. */
  function Weekday(day: int): int {
    (day + EPOCH_WDAY) % 7
  }

  /** Broken-down time, struct tm. */
  datatype Tm = Tm(sec: int, min: int, hour: int, mday: int, mon: int, year: int, wday: int, yday: int, isdst: int)

  /** The day number and the second that the date and time fields denote, in range or not. */
  function DayOf(tm: Tm): int
    requires 0 <= tm.mon < 12
  {
    DaysToYear(tm.year + TM_YEAR_BASE) + MonthStart(IsLeap(tm.year + TM_YEAR_BASE), tm.mon) + tm.mday - 1
  }

  function SecondOf(tm: Tm): int
    requires 0 <= tm.mon < 12
  {
    DayOf(tm) * SECS_PER_DAY + tm.hour * 3600 + tm.min * 60 + tm.sec
  }

  predicate ValidTime(tm: Tm) {
    0 <= tm.sec < 60 && 0 <= tm.min < 60 && 0 <= tm.hour < 24
  }

  predicate ValidDate(tm: Tm) {
    0 <= tm.mon < 12 && 1 <= tm.mday <= MonthLength(IsLeap(tm.year + TM_YEAR_BASE), tm.mon)
  }

  /** A date that exists, with the day of the year and the weekday it falls on. */
  predicate Valid(tm: Tm) {
    && ValidTime(tm) && ValidDate(tm)
    && tm.yday == MonthStart(IsLeap(tm.year + TM_YEAR_BASE), tm.mon) + tm.mday - 1
    && tm.wday == Weekday(DayOf(tm))
  }

  // ---------- the reference calendar ----------

  lemma {:induction false} YearSpan(a: int, b: int)
    requires a <= b
    ensures 365 * (b - a) <= DaysToYear(b) - DaysToYear(a) <= 366 * (b - a)
    decreases b - a
  {
    if a < b {
      YearSpan(a, b - 1);
      NextYear(b - 1);
    }
  }

  lemma NextYear(y: int)
    ensures DaysToYear(y + 1) == DaysToYear(y) + YearLength(y)
  {
  }

  lemma {:induction false} SearchYear(d: int, lo: int, hi: int) returns (y: int)
    requires lo <= hi && DaysToYear(lo) <= d < DaysToYear(hi)
    ensures DaysToYear(y) <= d < DaysToYear(y + 1)
    decreases hi - lo
  {
    if d < DaysToYear(lo + 1) {
      y := lo;
    } else {
      y := SearchYear(d, lo + 1, hi);
    }
  }

  /** Every day belongs to exactly one year. */
  lemma YearExists(d: int)
    ensures exists y :: DaysToYear(y) <= d < DaysToYear(y + 1)
  {
    var n := (if d >= 0 then d else -d) + 1;
    YearSpan(EPOCH_YEAR, EPOCH_YEAR + n);
    YearSpan(EPOCH_YEAR - n, EPOCH_YEAR);
    var y := SearchYear(d, EPOCH_YEAR - n, EPOCH_YEAR + n);
  }

  ghost function YearOf(d: int): (y: int)
    ensures DaysToYear(y) <= d < DaysToYear(y + 1)
  {
    YearExists(d);
    var y :| DaysToYear(y) <= d < DaysToYear(y + 1);
    y
  }

  lemma YearUnique(d: int, y: int)
    requires DaysToYear(y) <= d < DaysToYear(y) + YearLength(y)
    ensures YearOf(d) == y
  {
    NextYear(y);
    var z := YearOf(d);
    if z < y {
      YearSpan(z + 1, y);
    } else if y < z {
      YearSpan(y + 1, z);
    }
  }

  lemma YearOfMonotone(d: int, e: int)
    requires d <= e
    ensures YearOf(d) <= YearOf(e)
  {
    var y, z := YearOf(d), YearOf(e);
    if z < y {
      YearSpan(z + 1, y);
    }
  }

  lemma YearAtLeast(d: int, n: int)
    requires n >= 0 && d >= -365 * n
    ensures YearOf(d) >= EPOCH_YEAR - n
  {
    var y := YearOf(d);
    YearSpan(EPOCH_YEAR - n, EPOCH_YEAR);
    if y < EPOCH_YEAR - n {
      YearSpan(y + 1, EPOCH_YEAR - n);
    }
  }

  lemma YearLessThan(d: int, n: int)
    requires n >= 0 && d < 365 * n
    ensures YearOf(d) < EPOCH_YEAR + n
  {
    var y := YearOf(d);
    YearSpan(EPOCH_YEAR, EPOCH_YEAR + n);
    if y >= EPOCH_YEAR + n {
      YearSpan(EPOCH_YEAR + n, y);
    }
  }

  lemma YearBelow(d: int, n: int)
    requires n >= 0 && d < -366 * n
    ensures YearOf(d) < EPOCH_YEAR - n
  {
    var y := YearOf(d);
    YearSpan(EPOCH_YEAR - n, EPOCH_YEAR);
    if y >= EPOCH_YEAR - n {
      YearSpan(EPOCH_YEAR - n, y);
    }
  }

  lemma YearAbove(d: int, n: int)
    requires n >= 0 && d >= 366 * n
    ensures YearOf(d) >= EPOCH_YEAR + n
  {
    var y := YearOf(d);
    YearSpan(EPOCH_YEAR, EPOCH_YEAR + n);
    if y < EPOCH_YEAR + n {
      YearSpan(y + 1, EPOCH_YEAR + n);
    }
  }

  /** The month of day yday of a year. */
  function MonthOf(leap: bool, yday: int): (m: int)
    requires 0 <= yday < MonthStart(leap, 12)
    ensures 0 <= m < 12 && MonthStart(leap, m) <= yday < MonthStart(leap, m + 1)
  {
    MonthFrom(leap, yday, 0)
  }

  function MonthFrom(leap: bool, yday: int, m: int): (r: int)
    requires 0 <= m < 12 && MonthStart(leap, m) <= yday < MonthStart(leap, 12)
    ensures m <= r < 12 && MonthStart(leap, r) <= yday < MonthStart(leap, r + 1)
    decreases 12 - m
  {
    if yday < MonthStart(leap, m + 1) then m else MonthFrom(leap, yday, m + 1)
  }

  lemma {:induction false} MonthSpan(leap: bool, a: int, b: int)
    requires 0 <= a <= b <= 12
    ensures MonthStart(leap, b) >= MonthStart(leap, a) + 28 * (b - a)
    decreases b - a
  {
    if a < b {
      MonthSpan(leap, a, b - 1);
    }
  }

  lemma MonthUnique(leap: bool, a: int, b: int, yday: int)
    requires 0 <= a < 12 && 0 <= b < 12
    requires MonthStart(leap, a) <= yday < MonthStart(leap, a + 1)
    requires MonthStart(leap, b) <= yday < MonthStart(leap, b + 1)
    ensures a == b
  {
    if a < b {
      MonthSpan(leap, a + 1, b);
    } else if b < a {
      MonthSpan(leap, b + 1, a);
    }
  }

  lemma YearIsTwelveMonths(leap: bool)
    ensures MonthStart(leap, 12) == (if leap then 366 else 365)
    ensures MonthStart(leap, 1) == 31 && MonthStart(leap, 2) == (if leap then 60 else 59)
    ensures var x := if leap then 1 else 0;
            MonthStart(leap, 3) == 90 + x && MonthStart(leap, 4) == 120 + x && MonthStart(leap, 5) == 151 + x &&
            MonthStart(leap, 6) == 181 + x && MonthStart(leap, 7) == 212 + x && MonthStart(leap, 8) == 243 + x &&
            MonthStart(leap, 9) == 273 + x && MonthStart(leap, 10) == 304 + x && MonthStart(leap, 11) == 334 + x
  {
    assert MonthStart(leap, 0) == 0;
    assert MonthStart(leap, 1) == 31;
    assert MonthStart(leap, 2) == 31 + MonthLength(leap, 1);
    assert MonthStart(leap, 3) == MonthStart(leap, 2) + 31;
    assert MonthStart(leap, 4) == MonthStart(leap, 3) + 30;
    assert MonthStart(leap, 5) == MonthStart(leap, 4) + 31;
    assert MonthStart(leap, 6) == MonthStart(leap, 5) + 30;
    assert MonthStart(leap, 7) == MonthStart(leap, 6) + 31;
    assert MonthStart(leap, 8) == MonthStart(leap, 7) + 31;
    assert MonthStart(leap, 9) == MonthStart(leap, 8) + 30;
    assert MonthStart(leap, 10) == MonthStart(leap, 9) + 31;
    assert MonthStart(leap, 11) == MonthStart(leap, 10) + 30;
  }

  /** tm is the calendar date and time of day of second s. */
  ghost predicate IsDate(tm: Tm, s: int) {
    Valid(tm) && SecondOf(tm) == s && tm.isdst == 0
  }

  lemma DateExists(s: int)
    ensures exists tm :: IsDate(tm, s)
  {
    var day := s / SECS_PER_DAY;
    var rem := s % SECS_PER_DAY;
    var y := YearOf(day);
    var leap := IsLeap(y);
    var yday := day - DaysToYear(y);
    NextYear(y);
    YearIsTwelveMonths(leap);
    var m := MonthOf(leap, yday);
    var tm := Tm(rem % 3600 % 60, rem % 3600 / 60, rem / 3600, yday - MonthStart(leap, m) + 1, m, y - TM_YEAR_BASE,
                 Weekday(day), yday, 0);
    assert IsDate(tm, s);
  }

  /** The calendar date and time of day of second s. */
  ghost function TmOf(s: int): (tm: Tm)
    ensures IsDate(tm, s)
  {
    DateExists(s);
    var tm :| IsDate(tm, s);
    tm
  }

  /** A valid date is inside its own year. */
  lemma YearOfValid(tm: Tm)
    requires ValidDate(tm)
    ensures YearOf(DayOf(tm)) == tm.year + TM_YEAR_BASE
  {
    var y := tm.year + TM_YEAR_BASE;
    YearIsTwelveMonths(IsLeap(y));
    MonthSpan(IsLeap(y), tm.mon + 1, 12);
    MonthSpan(IsLeap(y), 0, tm.mon);
    YearUnique(DayOf(tm), y);
  }

  lemma DayOfSecond(tm: Tm)
    requires ValidDate(tm) && ValidTime(tm)
    ensures SecondOf(tm) / SECS_PER_DAY == DayOf(tm)
    ensures SecondOf(tm) % SECS_PER_DAY == tm.hour * 3600 + tm.min * 60 + tm.sec
  {
  }

  lemma YearOfDate(s: int)
    ensures TmOf(s).year + TM_YEAR_BASE == YearOf(s / SECS_PER_DAY)
  {
    DayOfSecond(TmOf(s));
    YearOfValid(TmOf(s));
  }

  /** Two valid broken-down times of the same second are the same. */
  lemma TmUnique(a: Tm, b: Tm)
    requires Valid(a) && Valid(b) && SecondOf(a) == SecondOf(b) && a.isdst == b.isdst
    ensures a == b
  {
    DayOfSecond(a);
    DayOfSecond(b);
    YearOfValid(a);
    YearOfValid(b);
    MonthUnique(IsLeap(a.year + TM_YEAR_BASE), a.mon, b.mon, a.yday);
  }

  // ---------- leap years in closed form ----------

  /** The number of leap years through the end of year y, as the code computes it. */
  function LeapsThruEndOf(y: int): int
    decreases if y >= 0 then 0 else 1
  {
    if y >= 0 then y / 4 - y / 100 + y / 400 else -(LeapsThruEndOf(-(y + 1)) + 1)
  }

  /** The code's count is the floor formula for negative years as well. */
  lemma LeapsFloor(y: int)
    ensures LeapsThruEndOf(y) == y / 4 - y / 100 + y / 400
  {
    if y < 0 {
      NegDiv(y, 4);
      NegDiv(y, 100);
      NegDiv(y, 400);
    }
  }

  lemma LeapsBound(y: int)
    requires IsInt(y)
    ensures -530_000_000 <= LeapsThruEndOf(y) <= 530_000_000
  {
    LeapsFloor(y);
  }

  lemma Divisors(y: int)
    ensures y % 100 == 0 ==> y % 4 == 0
    ensures y % 400 == 0 ==> y % 100 == 0
  {
  }

  /** leaps_thru_end_of counts exactly one more at each leap year, negative years included. */
  lemma LeapsCountsLeapYears(y: int)
    ensures LeapsThruEndOf(y) - LeapsThruEndOf(y - 1) == if IsLeap(y) then 1 else 0
  {
    LeapsFloor(y);
    LeapsFloor(y - 1);
    DivStep(y, 4);
    DivStep(y, 100);
    DivStep(y, 400);
    Divisors(y);
  }

  /** The accelerated day count agrees with counting year by year. */
  lemma {:induction false} DaysToYearClosed(y: int)
    ensures DaysToYear(y) == (y - EPOCH_YEAR) * 365 + LeapsThruEndOf(y - 1) - LeapsThruEndOf(EPOCH_YEAR - 1)
    decreases if y >= EPOCH_YEAR then y - EPOCH_YEAR else EPOCH_YEAR - y
  {
    if y > EPOCH_YEAR {
      DaysToYearClosed(y - 1);
      LeapsCountsLeapYears(y - 1);
    } else if y < EPOCH_YEAR {
      DaysToYearClosed(y + 1);
      LeapsCountsLeapYears(y);
    }
  }

  // ---------- the 400-year cycle ----------

  lemma LeapRepeats(y: int, k: int)
    ensures IsLeap(y + 400 * k) == IsLeap(y)
  {
    DivShift(y, 4, 100 * k);
    DivShift(y, 100, 4 * k);
    DivShift(y, 400, k);
  }

  /** 400 years have 146097 days, a whole number of weeks. */
  lemma {:induction false} DaysRepeat(y: int, k: int)
    ensures DaysToYear(y + 400 * k) == DaysToYear(y) + DAYS_PER_REPEAT * k
  {
    DaysToYearClosed(y + 400 * k);
    DaysToYearClosed(y);
    LeapsRepeat(y - 1, k);
  }

  lemma LeapsRepeat(y: int, k: int)
    ensures LeapsThruEndOf(y + 400 * k) == LeapsThruEndOf(y) + 97 * k
  {
    LeapsFloor(y + 400 * k);
    LeapsFloor(y);
    DivShift(y, 4, 100 * k);
    DivShift(y, 100, 4 * k);
    DivShift(y, 400, k);
  }

  /** Moving by whole cycles changes nothing but the year. */
  lemma TmRepeats(s: int, k: int)
    ensures TmOf(s + SECS_PER_REPEAT * k) == TmOf(s).(year := TmOf(s).year + 400 * k)
  {
    var a := TmOf(s);
    var b := a.(year := a.year + 400 * k);
    var y := a.year + TM_YEAR_BASE;
    LeapRepeats(y, k);
    DaysRepeat(y, k);
    assert b.year + TM_YEAR_BASE == y + 400 * k;
    assert DayOf(b) == DayOf(a) + DAYS_PER_REPEAT * k;
    DivShift(DayOf(a) + EPOCH_WDAY, 7, 20871 * k);
    assert SECS_PER_REPEAT == DAYS_PER_REPEAT * SECS_PER_DAY;
    assert SecondOf(b) == SecondOf(a) + (DAYS_PER_REPEAT * k) * SECS_PER_DAY;
    TmUnique(TmOf(s + SECS_PER_REPEAT * k), b);
  }
}
