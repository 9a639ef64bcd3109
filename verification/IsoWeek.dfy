/** The ISO 8601 week of strftime's %V, %G and %g, and the year printing of _yconv. */
module IsoWeek {
  import opened CInt
  import opened Calendar

  /** isleap_sum(a, b): the leap test of a + b without the sum. */
  predicate IsLeapSum(a: int, b: int) {
    var y := Mod(a, 400) + Mod(b, 400);
    y % 4 == 0 && (y % 100 != 0 || y % 400 == 0)
  }

  lemma LeapSumIsLeap(a: int, b: int)
    ensures IsLeapSum(a, b) == IsLeap(a + b)
  {
    var k := Div(a, 400) + Div(b, 400);
    assert Mod(a, 400) + Mod(b, 400) == a + b + 400 * (-k);
    LeapRepeats(a + b, -k);
  }

  /** The day of the year of the Thursday in the Monday-to-Sunday week of a day. */
  function ThursdayOf(yday: int, wday: int): int {
    yday - (wday + 6) % 7 + 3
  }

  /**
    The week of section 2.2.10 of ISO 8601:2004: a week belongs to the year of its
    Thursday, and is numbered by the Thursdays of that year.  The day is any day counted
    from January 1 of year y, inside that year or not.
   */
  ghost function WeekOf(y: int, yday: int, wday: int): (r: (int, int)) {
    var thursday := DaysToYear(y) + ThursdayOf(yday, wday);
    var year := YearOf(thursday);
    (year, 1 + (thursday - DaysToYear(year)) / 7)
  }

  /** The same day counted from the year before. */
  lemma WeekFromYearBefore(y: int, yday: int, wday: int)
    ensures WeekOf(y, yday, wday) == WeekOf(y - 1, yday + YearLength(y - 1), wday)
  {
    NextYear(y - 1);
  }

  lemma WeekByThursday(y: int, yday: int, wday: int)
    ensures var th := ThursdayOf(yday, wday);
            && (0 <= th < YearLength(y) ==> WeekOf(y, yday, wday) == (y, 1 + th / 7))
            && (YearLength(y) <= th < YearLength(y) + 7 ==> WeekOf(y, yday, wday) == (y + 1, 1))
            && (YearLength(y) + 7 <= th ==> WeekOf(y, yday, wday) != (y + 1, 1))
  {
    var th := ThursdayOf(yday, wday);
    var day := DaysToYear(y) + th;
    NextYear(y);
    NextYear(y + 1);
    if 0 <= th < YearLength(y) {
      YearUnique(day, y);
    } else if YearLength(y) <= th < YearLength(y) + 7 {
      YearUnique(day, y + 1);
    }
  }

  /** What the loop knows of a day: bot and top are the Mondays on which two ISO years begin. */
  ghost predicate Mondays(yday: int, wday: int, len: int, bot: int, top: int) {
    var th := ThursdayOf(yday, wday);
    && (yday < bot <==> th < 0) && (yday >= top <==> th >= len)
    && (0 <= th < len ==> (yday - bot) / 7 == th / 7 && 0 <= th / 7 <= 52)
  }

  /**
    The loop of %V.  It ends for every tm_yday and tm_wday, in range or not, with a number in 1..53, and
    in at most two rounds from a day that is not before its year.  For a weekday in range it gives the
    week-year, as base plus tm_year, and the week number of the day's Thursday if and only if that
    Thursday is not past the first week of the next year; a later day is taken for that week.
   */
  method Week(year: int, yday0: int, wday: int) returns (base: int, w: int, ghost rounds: nat)
    requires IsInt(yday0) && IsInt(wday)
    ensures 0 <= wday <= 6 ==>
              ((year + base, w) == WeekOf(year + TM_YEAR_BASE, yday0, wday) <==>
               ThursdayOf(yday0, wday) < YearLength(year + TM_YEAR_BASE) + 7)
    ensures 1 <= w <= 53 && (0 <= yday0 ==> rounds <= 2)
  {
    base, w := TM_YEAR_BASE, 0;
    var yday := yday0;
    var done := false;
    rounds := 0;
    ghost var y := year + TM_YEAR_BASE;
    while !done
      invariant IsInt(yday) && (rounds == 0 ==> base == TM_YEAR_BASE && yday == yday0)
      invariant !done && rounds >= 1 && 0 <= wday <= 6 ==>
                  ThursdayOf(yday0, wday) < 0 && ThursdayOf(yday, wday) < YearLength(year + base)
      invariant !done ==> WeekOf(year + base, yday, wday) == WeekOf(y, yday0, wday)
      invariant !done && yday0 >= 0 ==> rounds <= 1 && (rounds == 1 ==> yday >= 3)
      invariant done ==> 1 <= w <= 53 && (0 <= yday0 ==> rounds <= 2)
      invariant done && 0 <= wday <= 6 ==>
                  ((year + base, w) == WeekOf(y, yday0, wday) <==> ThursdayOf(yday0, wday) < YearLength(y) + 7)
      decreases !done, 400 - yday
    {
      done, base, w, yday := Round(year, base, yday, wday);
      rounds := rounds + 1;
    }
  }

  /** One round of the loop: the answer, or the same day counted from the year before. */
  method Round(year: int, base: int, yday: int, wday: int) returns (done: bool, base': int, w: int, yday': int)
    requires IsInt(yday) && IsInt(wday)
    ensures IsInt(yday')
    ensures done ==> 1 <= w <= 53
    ensures done && 0 <= wday <= 6 ==> ThursdayOf(yday, wday) >= 0
    ensures done && 0 <= wday <= 6 ==>
              ((year + base', w) == WeekOf(year + base, yday, wday) <==>
               ThursdayOf(yday, wday) < YearLength(year + base) + 7)
    ensures !done ==> yday < 3 && yday' == yday + YearLength(year + base')
    ensures !done && 0 <= wday <= 6 ==> ThursdayOf(yday, wday) < 0
    ensures !done ==> WeekOf(year + base', yday', wday) == WeekOf(year + base, yday, wday)
  {
    LeapSumIsLeap(year, base);
    LeapSumIsLeap(year, base - 1);
    var len := if IsLeapSum(year, base) then 366 else 365;
    var bot, top := YearBounds(yday, wday, len);
    WeekByThursday(year + base, yday, wday);
    if yday >= top {
      return true, base + 1, 1, yday;
    }
    if yday >= bot {
      return true, base, 1 + (yday - bot) / 7, yday;
    }
    WeekFromYearBefore(year + base, yday, wday);
    done, base', w := false, base - 1, 0;
    yday' := yday + if IsLeapSum(year, base') then 366 else 365;
  }

  /** bot and top, the first sum in an int. */
  method YearBounds(yday: int, wday: int, len: int) returns (bot: int, top: int)
    requires IsInt(yday) && IsInt(wday) && (len == 365 || len == 366)
    ensures -9 <= bot <= 3 && (top - bot == 364 || top - bot == 371)
    ensures 0 <= wday <= 6 ==> Mondays(yday, wday, len, bot, top)
  {
    bot := Mod(Wrap32(yday + 11 - wday), 7) - 3;
    top := bot - len % 7;
    if top < -3 {
      top := top + 7;
    }
    top := top + len;
    if 0 <= wday <= 6 {
      if yday < wday - 11 {
        LongBefore(yday, wday, len, bot, top);
      } else if yday < 800 {
        IsoYearBounds(yday, wday, len, bot, top);
      } else {
        LongAfter(yday, wday, len, bot, top);
      }
    }
  }

  /**
    Day 400 of a common year, with the right weekday for it, is past the first week of the next year:
    its own week is the fifth or sixth of that year, and the loop says the first.
   */
  lemma LateDay(y: int, wday: int)
    requires 0 <= wday <= 6 && !IsLeap(y)
    ensures ThursdayOf(400, wday) >= YearLength(y) + 7
    ensures WeekOf(y, 400, wday).0 == y + 1 && 5 <= WeekOf(y, 400, wday).1 <= 6
  {
    var day := DaysToYear(y) + ThursdayOf(400, wday);
    NextYear(y);
    NextYear(y + 1);
    YearUnique(day, y + 1);
  }

  lemma LongBefore(yday: int, wday: int, len: int, bot: int, top: int)
    requires 0 <= wday <= 6 && yday < wday - 11 && len >= 365 && top >= 300
    requires bot == -((wday - 11 - yday) % 7) - 3
    ensures Mondays(yday, wday, len, bot, top)
  {
    var n := wday - 11 - yday;
    assert n % 7 <= n;
  }

  lemma LongAfter(yday: int, wday: int, len: int, bot: int, top: int)
    requires 0 <= wday <= 6 && yday >= 800 && len <= 366 && bot <= 3 && top <= 400
    ensures Mondays(yday, wday, len, bot, top)
  {
  }

  /** bot and top are the Mondays on which this and the next ISO year begin. */
  lemma IsoYearBounds(yday: int, wday: int, len: int, bot: int, top: int)
    requires 0 <= wday <= 6 && wday - 11 <= yday < 800 && (len == 365 || len == 366)
    requires bot == (yday + 11 - wday) % 7 - 3
    requires top == (if bot - len % 7 < -3 then bot - len % 7 + 7 else bot - len % 7) + len
    ensures Mondays(yday, wday, len, bot, top)
  {
    var th := ThursdayOf(yday, wday);
    var monday := th - 3;
    var k, m := (monday - bot) / 7, (top - bot) / 7;
    assert monday == bot + 7 * k;
    assert top == bot + 7 * m;
  }

  // ---------- _yconv ----------

  /** The two halves of the year a + b that _yconv prints. */
  function YConv(a: int, b: int): (r: (int, int)) {
    var sum := Mod(a, 100) + Mod(b, 100);
    var lead := Div(a, 100) + Div(b, 100) + Div(sum, 100);
    var trail := Mod(sum, 100);
    if trail < 0 && lead > 0 then (lead - 1, trail + 100)
    else if lead < 0 && trail > 0 then (lead + 1, trail - 100)
    else (lead, trail)
  }

  /** The halves are the century and the rest of the true year, and never differ in sign. */
  lemma YConvIsTheYear(a: int, b: int)
    ensures var (lead, trail) := YConv(a, b);
            && 100 * lead + trail == a + b && -100 < trail < 100
            && (a + b >= 0 ==> lead >= 0 && trail >= 0) && (a + b <= 0 ==> lead <= 0 && trail <= 0)
  {
  }
}
