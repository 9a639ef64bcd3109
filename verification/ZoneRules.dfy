/** transtime and the rule loop of tzparse: POSIX TZ rules turned into transitions. */
module ZoneRules {
  import opened Arithmetic
  import opened CInt
  import opened Calendar
  import opened Normalize
  import T = TimeSub
  import L = LocalSub

  /** A rule as getrule reads it: Jn, n or Mm.n.d, and the second of the day. */
  datatype Rule =
    | JulianDay(day: int, time: int)
    | DayOfYear(day: int, time: int)
    | MonthNthDayOfWeek(mon: int, week: int, day: int, time: int)

  predicate ValidRule(r: Rule) {
    match r
    case JulianDay(day, _) => 1 <= day <= 365
    case DayOfYear(day, _) => 0 <= day <= 365
    case MonthNthDayOfWeek(mon, week, day, _) => 1 <= mon <= 12 && 1 <= week <= 5 && 0 <= day <= 6
  }

  // ---------- Zeller's congruence ----------

  /** The weekday of the first of a month as transtime computes it. */
  function Zeller(mon: int, year: int): int {
    var m1 := Mod(mon + 9, 12) + 1;
    var yy0 := if mon <= 2 then year - 1 else year;
    var yy1 := Div(yy0, 100);
    var yy2 := Mod(yy0, 100);
    var dow := Mod(Div(26 * m1 - 2, 10) + 1 + yy2 + Div(yy2, 4) + Div(yy1, 4) - 2 * yy1, 7);
    if dow < 0 then dow + 7 else dow
  }

  lemma LeapsByCentury(y: int)
    requires y >= 0
    ensures LeapsThruEndOf(y) == 24 * (y / 100) + (y % 100) / 4 + (y / 100) / 4
  {
    var c, d := y / 100, y % 100;
    DivShift(d, 4, 25 * c);
    assert c == 4 * (c / 4) + c % 4;
    DivUnique(y, 400, c / 4, 100 * (c % 4) + d);
  }

  /** The days before a month of a common year. */
  function DaysBefore(mon: int): int {
    if mon <= 1 then 0 else if mon == 2 then 31 else if mon == 3 then 59 else if mon == 4 then 90
    else if mon == 5 then 120 else if mon == 6 then 151 else if mon == 7 then 181 else if mon == 8 then 212
    else if mon == 9 then 243 else if mon == 10 then 273 else if mon == 11 then 304 else 334
  }

  lemma MonthTable(mon: int)
    requires 1 <= mon <= 12
    ensures MonthStart(false, mon - 1) == DaysBefore(mon)
  {
    YearIsTwelveMonths(false);
  }

  lemma TableConstant(mon: int)
    requires 1 <= mon <= 12
    ensures var m1 := Mod(mon + 9, 12) + 1;
            var base := if mon <= 2 then 1969 else 1970;
            (DaysBefore(mon) + 3 - 477 - 365 * base - Div(26 * m1 - 2, 10)) % 7 == 0
  {
  }

  /** The month constant of the congruence differs from the calendar's by whole weeks. */
  lemma MonthConstant(mon: int)
    requires 1 <= mon <= 12
    ensures var m1 := Mod(mon + 9, 12) + 1;
            var base := if mon <= 2 then 1969 else 1970;
            (MonthStart(false, mon - 1) + 3 - 477 - 365 * base - Div(26 * m1 - 2, 10)) % 7 == 0
  {
    MonthTable(mon);
    TableConstant(mon);
  }

  /** A leap year shifts the months from March on, by one day. */
  lemma LeapDayComesAfter(mon: int)
    requires 0 <= mon < 12
    ensures MonthStart(true, mon) == MonthStart(false, mon) + if mon >= 2 then 1 else 0
  {
    YearIsTwelveMonths(true);
    YearIsTwelveMonths(false);
  }

  lemma NewYear(year: int)
    ensures DaysToYear(year) == 365 * (year - 1970) + LeapsThruEndOf(year - 1) - 477
  {
    DaysToYearClosed(year);
  }

  lemma MonthDayFromYear(mon: int, year: int)
    requires 1 <= mon <= 12
    ensures var yy0 := if mon <= 2 then year - 1 else year;
            var base := if mon <= 2 then 1969 else 1970;
            MonthDay(year, mon - 1) == 365 * (yy0 - base) + LeapsThruEndOf(yy0) - 477 + MonthStart(false, mon - 1)
  {
    NewYear(year);
    LeapDayComesAfter(mon - 1);
    var plain := MonthStart(false, mon - 1);
    if mon > 2 {
      LeapsCountsLeapYears(year);
      assert MonthStart(IsLeap(year), mon - 1) == plain + LeapsThruEndOf(year) - LeapsThruEndOf(year - 1);
    } else {
      assert MonthStart(IsLeap(year), mon - 1) == plain;
    }
  }

  /** For every year from 1, Zeller's congruence is the weekday of the day count. */
  lemma ZellerIsWeekday(mon: int, year: int)
    requires 1 <= mon <= 12 && year >= 1
    ensures Zeller(mon, year) == Weekday(MonthDay(year, mon - 1))
  {
    var m1 := Mod(mon + 9, 12) + 1;
    var yy0 := if mon <= 2 then year - 1 else year;
    var base := if mon <= 2 then 1969 else 1970;
    MonthDayFromYear(mon, year);
    LeapsByCentury(yy0);
    MonthConstant(mon);
    SameWeekday(yy0, base, MonthStart(false, mon - 1), Div(26 * m1 - 2, 10), MonthDay(year, mon - 1));
    ZellerSum(mon, year);
  }

  /** No C remainder of the congruence but the last has a negative dividend. */
  lemma ZellerSum(mon: int, year: int)
    requires 1 <= mon <= 12 && year >= 1
    ensures var yy0 := if mon <= 2 then year - 1 else year;
            var z := Div(26 * (Mod(mon + 9, 12) + 1) - 2, 10);
            Zeller(mon, year) == (z + 1 + yy0 % 100 + yy0 % 100 / 4 + yy0 / 100 / 4 - 2 * (yy0 / 100)) % 7
  {
    var yy0 := if mon <= 2 then year - 1 else year;
    var z := Div(26 * (Mod(mon + 9, 12) + 1) - 2, 10);
    T.CRemainder(z + 1 + yy0 % 100 + yy0 % 100 / 4 + yy0 / 100 / 4 - 2 * (yy0 / 100));
  }

  /** A century has 5217 weeks and 5 days, a year 52 weeks and 1 day. */
  lemma SameWeekday(yy0: int, base: int, start: int, z: int, day: int)
    requires yy0 >= 0 && (start + 3 - 477 - 365 * base - z) % 7 == 0
    requires day == 365 * (yy0 - base) + (24 * (yy0 / 100) + (yy0 % 100) / 4 + (yy0 / 100) / 4) - 477 + start
    ensures Weekday(day) == (z + 1 + yy0 % 100 + yy0 % 100 / 4 + yy0 / 100 / 4 - 2 * (yy0 / 100)) % 7
  {
    var c, d := yy0 / 100, yy0 % 100;
    var a, b := d / 4, c / 4;
    var q := (start + 3 - 477 - 365 * base - z) / 7;
    WeeksApart(c, d, a, b, base, start, z, q, day);
    DivShift(z + 1 + d + a + b - 2 * c, 7, 5218 * c + 52 * d + q);
  }

  lemma WeeksApart(c: int, d: int, a: int, b: int, base: int, start: int, z: int, q: int, day: int)
    requires start + 3 - 477 - 365 * base - z == 7 * q
    requires day == 365 * (100 * c + d - base) + (24 * c + a + b) - 477 + start
    ensures day + EPOCH_WDAY == z + 1 + d + a + b - 2 * c + 7 * (5218 * c + 52 * d + q)
  {
  }

  // ---------- the day a rule names ----------

  /** The day number that a rule names in a year, by the calendar. */
  ghost function DayNamed(r: Rule, year: int): int
    requires ValidRule(r)
  {
    match r
    case JulianDay(day, _) => DaysToYear(year) + day - 1 + (if IsLeap(year) && day >= 60 then 1 else 0)
    case DayOfYear(day, _) => DaysToYear(year) + day
    case MonthNthDayOfWeek(mon, week, day, _) =>
      var first := MonthDay(year, mon - 1);
      first + DayInMonth(Weekday(first), MonthLength(IsLeap(year), mon - 1), week, day)
  }

  /** The first such weekday of a month that begins on dow, plus weeks, the last if that is too late. */
  function DayInMonth(dow: int, length: int, week: int, day: int): int {
    var d := (day - dow) % 7 + 7 * (week - 1);
    if d >= length then d - 7 else d
  }

  /**
    Mm.n.d names a day of month m that is weekday d: the n-th such day for n up to 4, and
    the last such day for n = 5.
   */
  lemma NthWeekday(r: Rule, year: int)
    requires ValidRule(r) && r.MonthNthDayOfWeek?
    ensures var first, n := MonthDay(year, r.mon - 1), MonthLength(IsLeap(year), r.mon - 1);
            var k := DayNamed(r, year) - first;
            && 0 <= k < n && Weekday(first + k) == r.day
            && (r.week <= 4 ==> 7 * (r.week - 1) <= k < 7 * r.week)
            && (r.week == 5 ==> k + 7 >= n)
  {
    var first := MonthDay(year, r.mon - 1);
    NthInMonth(Weekday(first), MonthLength(IsLeap(year), r.mon - 1), r.week, r.day);
    DaysOn(first + EPOCH_WDAY, DayNamed(r, year) - first);
  }

  /** The same by the weekday on which the month begins and its length. */
  lemma NthInMonth(dow: int, n: int, week: int, day: int)
    requires 0 <= dow <= 6 && 28 <= n <= 31 && 1 <= week <= 5 && 0 <= day <= 6
    ensures var k := DayInMonth(dow, n, week, day);
            && 0 <= k < n && (dow + k) % 7 == day
            && (week <= 4 ==> 7 * (week - 1) <= k < 7 * week) && (week == 5 ==> k + 7 >= n)
  {
    var e := (day - dow) % 7;
    assert e == day - dow || e == day - dow + 7;
  }

  lemma DaysOn(x: int, k: int)
    ensures (x + k) % 7 == (x % 7 + k) % 7
  {
    DivShift(x % 7 + k, 7, x / 7);
    assert x + k == x % 7 + k + 7 * (x / 7);
  }

  /** Jn names the same month and day of the month in every year, never February 29. */
  lemma JulianDayIsFixed(r: Rule, year: int) returns (mon: int, mday: int)
    requires ValidRule(r) && r.JulianDay?
    ensures 0 <= mon < 12 && 1 <= mday <= MonthLength(false, mon)
    ensures MonthStart(false, mon) + mday == r.day
    ensures DayNamed(r, year) == MonthDay(year, mon) + mday - 1
  {
    mon := MonthOfDay(r.day - 1);
    mday := r.day - MonthStart(false, mon);
    LeapDayComesAfter(mon);
  }

  /** n names the day whose tm_yday is n, for 365 in a common year January 1 of the next. */
  lemma DayOfYearIsYday(r: Rule, year: int)
    requires ValidRule(r) && r.DayOfYear?
    ensures var tm := TmOf(DayNamed(r, year) * SECS_PER_DAY);
            if r.day < YearLength(year) then tm.year == year - TM_YEAR_BASE && tm.yday == r.day
            else tm.year == year + 1 - TM_YEAR_BASE && tm.yday == 0
  {
    NextYear(year);
    if r.day < YearLength(year) {
      YdayOf(DayNamed(r, year), year);
    } else {
      YdayOf(DayNamed(r, year), year + 1);
    }
  }

  lemma YdayOf(day: int, year: int)
    requires DaysToYear(year) <= day < DaysToYear(year) + YearLength(year)
    ensures var tm := TmOf(day * SECS_PER_DAY); tm.year == year - TM_YEAR_BASE && tm.yday == day - DaysToYear(year)
  {
    var tm := TmOf(day * SECS_PER_DAY);
    YearUnique(day, year);
    DivUnique(day * SECS_PER_DAY, SECS_PER_DAY, day, 0);
    YearOfDate(day * SECS_PER_DAY);
    DayOfSecond(tm);
    assert DayOf(tm) == day;
  }

  /** The month of a day of a common year; March begins on day 59. */
  lemma MonthOfDay(yday: int) returns (mon: int)
    requires 0 <= yday < 365
    ensures 0 <= mon < 12 && 0 <= yday - MonthStart(false, mon) < MonthLength(false, mon)
    ensures mon >= 2 <==> yday >= 59
  {
    YearIsTwelveMonths(false);
    mon := MonthOf(false, yday);
    if mon >= 2 {
      MonthSpan(false, 2, mon);
    } else {
      MonthSpan(false, mon + 1, 2);
    }
  }

  /** The rules repeat with the calendar every 400 years. */
  lemma RulesRepeat(r: Rule, year: int)
    requires ValidRule(r)
    ensures DayNamed(r, year + 400) == DayNamed(r, year) + DAYS_PER_REPEAT
  {
    DaysRepeat(year, 1);
    LeapRepeats(year, 1);
    if r.MonthNthDayOfWeek? {
      var first := MonthDay(year, r.mon - 1);
      assert MonthDay(year + 400, r.mon - 1) == first + DAYS_PER_REPEAT;
      DivShift(first + EPOCH_WDAY, 7, 20871);
    }
  }

  // ---------- transtime ----------

  method FirstOfMonth(janfirst: int, year: int, mon: int) returns (value: int)
    requires 1 <= mon <= 12 && janfirst == DaysToYear(year) * SECS_PER_DAY
    ensures value == MonthDay(year, mon - 1) * SECS_PER_DAY
  {
    value := janfirst;
    var i := 0;
    while i < mon - 1
      invariant 0 <= i <= mon - 1
      invariant value == (DaysToYear(year) + MonthStart(IsLeap(year), i)) * SECS_PER_DAY
    {
      value := value + MonthLength(IsLeap(year), i) * SECS_PER_DAY;
      i := i + 1;
    }
  }

  /** The weeks added to the first such weekday, stopping at the end of the month. */
  method AddWeeks(first: int, week: int, length: int) returns (d: int)
    requires 0 <= first <= 6 && 1 <= week <= 5 && 28 <= length <= 31
    ensures d == if first + 7 * (week - 1) >= length then first + 7 * (week - 1) - 7 else first + 7 * (week - 1)
  {
    d := first;
    var i := 1;
    while i < week
      invariant 1 <= i <= week && d == first + 7 * (i - 1) && d < length
    {
      if d + 7 >= length {
        break;
      }
      d := d + 7;
      i := i + 1;
    }
  }

  method FirstWeekday(mon: int, year: int) returns (dow: int)
    requires 1 <= mon <= 12 && year >= 1
    ensures dow == Weekday(MonthDay(year, mon - 1))
  {
    dow := Zeller(mon, year);
    ZellerIsWeekday(mon, year);
  }

  /** The day of the month, from 0, that Mm.n.d names. */
  method WeekdayInMonth(year: int, mon: int, week: int, day: int) returns (d: int)
    requires 1 <= mon <= 12 && 1 <= week <= 5 && 0 <= day <= 6 && year >= 1
    ensures d == DayInMonth(Weekday(MonthDay(year, mon - 1)), MonthLength(IsLeap(year), mon - 1), week, day)
  {
    var dow := FirstWeekday(mon, year);
    d := day - dow;
    if d < 0 {
      d := d + 7;
    }
    assert d == (day - dow) % 7;
    d := AddWeeks(d, week, MonthLength(IsLeap(year), mon - 1));
  }

  /** transtime: the second at which a rule takes effect in a year. */
  method TransTime(janfirst: int, year: int, r: Rule, offset: int) returns (value: int)
    requires ValidRule(r) && year >= EPOCH_YEAR && janfirst == DaysToYear(year) * SECS_PER_DAY
    ensures value == DayNamed(r, year) * SECS_PER_DAY + r.time + offset
  {
    match r {
      case JulianDay(day, _) =>
        value := janfirst + (day - 1) * SECS_PER_DAY;
        if IsLeap(year) && day >= 60 {
          value := value + SECS_PER_DAY;
        }
      case DayOfYear(day, _) =>
        value := janfirst + day * SECS_PER_DAY;
      case MonthNthDayOfWeek(mon, week, day, _) =>
        value := FirstOfMonth(janfirst, year, mon);
        var d := WeekdayInMonth(year, mon, week, day);
        value := value + d * SECS_PER_DAY;
    }
    value := value + r.time + offset;
  }

  // ---------- the table of tzparse ----------

  const TZ_MAX_TIMES: nat := 1200

  /** The seconds of the change into and out of daylight saving time in a year. */
  ghost function StartTime(start: Rule, year: int, stdoffset: int): int
    requires ValidRule(start)
  {
    DayNamed(start, year) * SECS_PER_DAY + start.time + stdoffset
  }

  /** Two entries for one year: the earlier change first, type 0 for the start. */
  predicate PairAt(ats: seq<int>, types: seq<nat>, i: nat, start: int, end: int)
    requires i + 1 < |ats| == |types|
  {
    if start > end
    then ats[i] == end && types[i] == 1 && ats[i + 1] == start && types[i + 1] == 0
    else ats[i] == start && types[i] == 0 && ats[i + 1] == end && types[i + 1] == 1
  }

  ghost predicate YearEntries(ats: seq<int>, types: seq<nat>, k: nat, rules: Rules)
    requires 2 * k + 1 < |ats| == |types| && ValidRules(rules)
  {
    PairAt(ats, types, 2 * k, StartTime(rules.start, EPOCH_YEAR + k, rules.stdoffset),
           StartTime(rules.end, EPOCH_YEAR + k, rules.dstoffset))
  }

  lemma PairKept(ats: seq<int>, types: seq<nat>, i: nat, start: int, end: int, more: seq<int>, more': seq<nat>)
    requires i + 1 < |ats| == |types| && |more| == |more'| && PairAt(ats, types, i, start, end)
    ensures PairAt(ats + more, types + more', i, start, end)
  {
  }

  /** The start and end rule and the two offsets of a TZ string. */
  datatype Rules = Rules(start: Rule, end: Rule, stdoffset: int, dstoffset: int)

  predicate ValidRules(rules: Rules) {
    ValidRule(rules.start) && ValidRule(rules.end)
  }

  ghost predicate RuleTableOk(ats: seq<int>, types: seq<nat>, rules: Rules)
    requires ValidRules(rules)
  {
    && |ats| == |types| && |ats| % 2 == 0
    && forall k: nat :: 2 * k + 1 < |ats| ==> YearEntries(ats, types, k, rules)
  }

  lemma TableGrows(ats: seq<int>, types: seq<nat>, a: int, b: int, x: nat, y: nat, rules: Rules)
    requires ValidRules(rules) && RuleTableOk(ats, types, rules)
    requires YearEntries(ats + [a, b], types + [x, y], |ats| / 2, rules)
    ensures RuleTableOk(ats + [a, b], types + [x, y], rules)
  {
    var ats', types' := ats + [a, b], types + [x, y];
    var n := |ats| / 2;
    assert |ats| == 2 * n && |ats'| == 2 * (n + 1);
    forall k: nat | 2 * k + 1 < |ats'| ensures YearEntries(ats', types', k, rules) {
      if k < n {
        assert YearEntries(ats, types, k, rules);
        EntriesKept(ats, types, k, rules, [a, b], [x, y]);
      } else {
        assert k == n;
      }
    }
  }

  lemma EntriesKept(ats: seq<int>, types: seq<nat>, k: nat, rules: Rules, more: seq<int>, more': seq<nat>)
    requires ValidRules(rules) && 2 * k + 1 < |ats| == |types| && |more| == |more'| && YearEntries(ats, types, k, rules)
    ensures YearEntries(ats + more, types + more', k, rules)
  {
    PairKept(ats, types, 2 * k, StartTime(rules.start, EPOCH_YEAR + k, rules.stdoffset),
             StartTime(rules.end, EPOCH_YEAR + k, rules.dstoffset), more, more');
  }

  /**
    The rule loop of tzparse.  janfirst stays at January 1 of the year, so the table holds
    the two changes of each of 600 years from 1970, in order within the year.
   */
  method RuleTable(rules: Rules) returns (ats: seq<int>, types: seq<nat>)
    requires ValidRules(rules)
    ensures |ats| == TZ_MAX_TIMES && RuleTableOk(ats, types, rules)
  {
    ats, types := [], [];
    var janfirst, year := 0, EPOCH_YEAR;
    while |ats| + 2 <= TZ_MAX_TIMES
      invariant year >= EPOCH_YEAR && |ats| == 2 * (year - EPOCH_YEAR) <= TZ_MAX_TIMES
      invariant janfirst == DaysToYear(year) * SECS_PER_DAY
      invariant RuleTableOk(ats, types, rules)
      decreases TZ_MAX_TIMES - |ats|
    {
      var starttime := TransTime(janfirst, year, rules.start, rules.stdoffset);
      var endtime := TransTime(janfirst, year, rules.end, rules.dstoffset);
      if starttime > endtime {
        TableGrows(ats, types, endtime, starttime, 1, 0, rules);
        ats, types := ats + [endtime, starttime], types + [1, 0];
      } else {
        TableGrows(ats, types, starttime, endtime, 0, 1, rules);
        ats, types := ats + [starttime, endtime], types + [0, 1];
      }
      NextYear(year);
      var newfirst := janfirst + YearLength(year) * SECS_PER_DAY;
      assert newfirst > janfirst;   // the overflow exit of the loop is not taken
      janfirst := newfirst;
      year := year + 1;
    }
  }

  lemma StartTimeRepeats(r: Rule, year: int, offset: int)
    requires ValidRule(r)
    ensures StartTime(r, year + 400, offset) == StartTime(r, year, offset) + SECS_PER_REPEAT
  {
    RulesRepeat(r, year);
  }

  lemma PairRepeats(ats: seq<int>, types: seq<nat>, i: nat, start: int, end: int)
    requires i + 801 < |ats| == |types|
    requires PairAt(ats, types, i, start, end)
    requires PairAt(ats, types, i + 800, start + SECS_PER_REPEAT, end + SECS_PER_REPEAT)
    ensures ats[i + 800] - ats[i] == SECS_PER_REPEAT && types[i + 800] == types[i]
    ensures ats[i + 801] - ats[i + 1] == SECS_PER_REPEAT && types[i + 801] == types[i + 1]
  {
  }

  lemma PairOfYear(ats: seq<int>, types: seq<nat>, rules: Rules, k: nat)
    requires ValidRules(rules) && RuleTableOk(ats, types, rules) && 2 * k + 1 < |ats|
    ensures PairAt(ats, types, 2 * k, StartTime(rules.start, EPOCH_YEAR + k, rules.stdoffset),
                   StartTime(rules.end, EPOCH_YEAR + k, rules.dstoffset))
  {
    assert YearEntries(ats, types, k, rules);
  }

  lemma PairLater(ats: seq<int>, types: seq<nat>, rules: Rules, k: nat) returns (start: int, end: int)
    requires ValidRules(rules) && RuleTableOk(ats, types, rules) && 2 * k + 801 < |ats|
    ensures PairAt(ats, types, 2 * k, start, end)
    ensures PairAt(ats, types, 2 * k + 800, start + SECS_PER_REPEAT, end + SECS_PER_REPEAT)
  {
    var y := EPOCH_YEAR + k;
    start, end := StartTime(rules.start, y, rules.stdoffset), StartTime(rules.end, y, rules.dstoffset);
    PairOfYear(ats, types, rules, k);
    PairOfYear(ats, types, rules, k + 400);
    StartTimeRepeats(rules.start, y, rules.stdoffset);
    StartTimeRepeats(rules.end, y, rules.dstoffset);
  }

  /** Entries 800 apart are the same change 400 years later, as goback and goahead demand. */
  lemma TableRepeats(ats: seq<int>, types: seq<nat>, rules: Rules, i: nat)
    requires ValidRules(rules) && RuleTableOk(ats, types, rules) && i + 800 < |ats|
    ensures L.DifferByRepeat(ats[i + 800], ats[i]) && types[i + 800] == types[i]
  {
    var start, end := PairLater(ats, types, rules, i / 2);
    PairRepeats(ats, types, 2 * (i / 2), start, end);
  }

  // ---------- the table as a zone ----------

  /** The earlier and the later change of a year. */
  ghost function Earlier(rules: Rules, year: int): int
    requires ValidRules(rules)
  {
    var start, end := StartTime(rules.start, year, rules.stdoffset), StartTime(rules.end, year, rules.dstoffset);
    if start > end then end else start
  }

  ghost function Later(rules: Rules, year: int): int
    requires ValidRules(rules)
  {
    var start, end := StartTime(rules.start, year, rules.stdoffset), StartTime(rules.end, year, rules.dstoffset);
    if start > end then start else end
  }

  /** The later change of a year does not come after the earlier change of the next. */
  ghost predicate YearsInOrder(rules: Rules, year: int)
    requires ValidRules(rules)
  {
    Later(rules, year) <= Earlier(rules, year + 1)
  }

  lemma EntriesOfYear(ats: seq<int>, types: seq<nat>, rules: Rules, k: nat)
    requires ValidRules(rules) && RuleTableOk(ats, types, rules) && 2 * k + 1 < |ats|
    ensures ats[2 * k] == Earlier(rules, EPOCH_YEAR + k) && ats[2 * k + 1] == Later(rules, EPOCH_YEAR + k)
    ensures types[2 * k] < 2 && types[2 * k + 1] < 2
  {
    PairOfYear(ats, types, rules, k);
  }

  lemma {:induction false} SortedByNeighbours(ats: seq<int>, i: nat, j: nat)
    requires i <= j < |ats| && forall k :: 0 <= k < |ats| - 1 ==> ats[k] <= ats[k + 1]
    ensures ats[i] <= ats[j]
    decreases j
  {
    if i < j {
      SortedByNeighbours(ats, i, j - 1);
      assert ats[j - 1] <= ats[j - 1 + 1];
    }
  }

  /** The table is sorted if and only if its years are in order. */
  lemma TableIsSorted(ats: seq<int>, types: seq<nat>, rules: Rules)
    requires ValidRules(rules) && RuleTableOk(ats, types, rules)
    ensures L.Sorted(ats) <==> forall k: nat :: 2 * k + 3 < |ats| ==> YearsInOrder(rules, EPOCH_YEAR + k)
  {
    if L.Sorted(ats) {
      forall k: nat | 2 * k + 3 < |ats| ensures YearsInOrder(rules, EPOCH_YEAR + k) {
        EntriesOfYear(ats, types, rules, k);
        EntriesOfYear(ats, types, rules, k + 1);
        assert ats[2 * k + 1] <= ats[2 * (k + 1)];
      }
    }
    if forall k: nat :: 2 * k + 3 < |ats| ==> YearsInOrder(rules, EPOCH_YEAR + k) {
      forall i | 0 <= i < |ats| - 1 ensures ats[i] <= ats[i + 1] {
        NeighboursInOrder(ats, types, rules, i);
      }
      forall i, j | 0 <= i <= j < |ats| ensures ats[i] <= ats[j] {
        SortedByNeighbours(ats, i, j);
      }
    }
  }

  lemma NeighboursInOrder(ats: seq<int>, types: seq<nat>, rules: Rules, i: nat)
    requires ValidRules(rules) && RuleTableOk(ats, types, rules) && i + 1 < |ats|
    requires forall k: nat :: 2 * k + 3 < |ats| ==> YearsInOrder(rules, EPOCH_YEAR + k)
    ensures ats[i] <= ats[i + 1]
  {
    var k := i / 2;
    EntriesOfYear(ats, types, rules, k);
    if i % 2 == 1 {
      EntriesOfYear(ats, types, rules, k + 1);
      assert YearsInOrder(rules, EPOCH_YEAR + k);
      assert i == 2 * k + 1 && i + 1 == 2 * (k + 1);
    } else {
      assert i == 2 * k;
    }
  }

  /** Times and offsets as getsecs reads them: up to a week, either way for an offset. */
  predicate ReadRules(rules: Rules) {
    && ValidRules(rules) && 0 <= rules.start.time <= 604_800 && 0 <= rules.end.time <= 604_800
    && -604_800 <= rules.stdoffset <= 604_800 && -604_800 <= rules.dstoffset <= 604_800
  }

  /** A rule names a day of its year. */
  lemma NamedInYear(r: Rule, year: int)
    requires ValidRule(r)
    ensures DaysToYear(year) <= DayNamed(r, year) <= DaysToYear(year) + 366
  {
    if r.MonthNthDayOfWeek? {
      var leap := IsLeap(year);
      NthWeekday(r, year);
      YearIsTwelveMonths(leap);
      MonthSpan(leap, 0, r.mon - 1);
      MonthSpan(leap, r.mon, 12);
    }
  }

  lemma ChangeIsTime(r: Rule, year: int, offset: int)
    requires ValidRule(r) && 0 <= r.time <= 604_800 && -604_800 <= offset <= 604_800
    requires EPOCH_YEAR <= year <= EPOCH_YEAR + 1000
    ensures IsTime(StartTime(r, year, offset))
  {
    NamedInYear(r, year);
    YearSpan(EPOCH_YEAR, year);
  }

  lemma EntryIsTime(ats: seq<int>, types: seq<nat>, rules: Rules, i: nat)
    requires ReadRules(rules) && RuleTableOk(ats, types, rules) && i < |ats| == TZ_MAX_TIMES
    ensures types[i] < 2 && IsTime(ats[i])
  {
    EntriesOfYear(ats, types, rules, i / 2);
    ChangeIsTime(rules.start, EPOCH_YEAR + i / 2, rules.stdoffset);
    ChangeIsTime(rules.end, EPOCH_YEAR + i / 2, rules.dstoffset);
  }

  /** The two types that tzparse sets up. */
  function RuleZone(ats: seq<int>, types: seq<nat>, rules: Rules): L.Zone {
    L.Zone(ats, types, [L.TimeType(-rules.dstoffset, 1), L.TimeType(-rules.stdoffset, 0)], true, true)
  }

  /**
    The table of a TZ string is a zone that localsub can search and fold, with both fold flags
    set, if and only if its years are in order.
   */
  lemma TableIsZone(ats: seq<int>, types: seq<nat>, rules: Rules)
    requires ReadRules(rules) && RuleTableOk(ats, types, rules) && |ats| == TZ_MAX_TIMES
    ensures L.ValidZone(RuleZone(ats, types, rules)) <==>
            forall k: nat :: 2 * k + 3 < |ats| ==> YearsInOrder(rules, EPOCH_YEAR + k)
  {
    TableIsSorted(ats, types, rules);
    forall i | 0 <= i < |ats| ensures types[i] < 2 && IsTime(ats[i]) {
      EntryIsTime(ats, types, rules, i);
    }
    TableRepeats(ats, types, rules, 0);
    TableRepeats(ats, types, rules, |ats| - 1 - L.WINDOW);
  }

  /** Years need not be in order: J365/167 takes effect after J1/0 of the year after. */
  lemma YearsOutOfOrder() returns (rules: Rules)
    ensures ReadRules(rules) && !YearsInOrder(rules, EPOCH_YEAR)
  {
    rules := Rules(JulianDay(365, 167 * 3600), JulianDay(1, 0), 0, 0);
    NextYear(EPOCH_YEAR);
  }

  // ---------- the zone in every year ----------

  const LAST_YEAR: int := EPOCH_YEAR + TZ_MAX_TIMES / 2 - 1

  ghost function StartOf(rules: Rules, year: int): int
    requires ValidRules(rules)
  {
    StartTime(rules.start, year, rules.stdoffset)
  }

  ghost function EndOf(rules: Rules, year: int): int
    requires ValidRules(rules)
  {
    StartTime(rules.end, year, rules.dstoffset)
  }

  lemma {:induction false} ChangeRepeats(r: Rule, year: int, offset: int, c: nat)
    requires ValidRule(r)
    ensures StartTime(r, year + 400 * c, offset) == StartTime(r, year, offset) + c * SECS_PER_REPEAT
    decreases c
  {
    if c > 0 {
      ChangeRepeats(r, year, offset, c - 1);
      StartTimeRepeats(r, year + 400 * (c - 1), offset);
      assert year + 400 * (c - 1) + 400 == year + 400 * c;
    }
  }

  lemma ChangeShifts(r: Rule, year: int, offset: int, c: int)
    requires ValidRule(r)
    ensures StartTime(r, year + 400 * c, offset) == StartTime(r, year, offset) + c * SECS_PER_REPEAT
  {
    if c >= 0 {
      ChangeRepeats(r, year, offset, c);
    } else {
      ChangeRepeats(r, year + 400 * c, offset, -c);
      assert year + 400 * c + 400 * (-c) == year;
    }
  }

  lemma ChangesShift(rules: Rules, year: int, c: int)
    requires ValidRules(rules)
    ensures StartOf(rules, year + 400 * c) == StartOf(rules, year) + c * SECS_PER_REPEAT
    ensures EndOf(rules, year + 400 * c) == EndOf(rules, year) + c * SECS_PER_REPEAT
  {
    ChangeShifts(rules.start, year, rules.stdoffset, c);
    ChangeShifts(rules.end, year, rules.dstoffset, c);
  }

  ghost predicate InOrder(rules: Rules)
    requires ValidRules(rules)
  {
    forall k: nat :: 2 * k + 3 < TZ_MAX_TIMES ==> YearsInOrder(rules, EPOCH_YEAR + k)
  }

  lemma InOrderAt(rules: Rules, k: nat)
    requires ValidRules(rules) && InOrder(rules) && k < 400
    ensures YearsInOrder(rules, EPOCH_YEAR + k)
  {
    assert 2 * k + 3 < TZ_MAX_TIMES;
  }

  lemma OrderShifts(rules: Rules, y: int, z: int, d: int)
    requires ValidRules(rules) && YearsInOrder(rules, y)
    requires StartOf(rules, z) == StartOf(rules, y) + d && EndOf(rules, z) == EndOf(rules, y) + d
    requires StartOf(rules, z + 1) == StartOf(rules, y + 1) + d && EndOf(rules, z + 1) == EndOf(rules, y + 1) + d
    ensures YearsInOrder(rules, z)
  {
  }

  /** Years in order in the table are in order for ever. */
  lemma AlwaysInOrder(rules: Rules, year: int)
    requires ValidRules(rules) && InOrder(rules)
    ensures YearsInOrder(rules, year)
  {
    var c, k: nat := (year - EPOCH_YEAR) / 400, (year - EPOCH_YEAR) % 400;
    InOrderAt(rules, k);
    assert year == EPOCH_YEAR + k + 400 * c;
    ChangesShift(rules, EPOCH_YEAR + k, c);
    ChangesShift(rules, EPOCH_YEAR + k + 1, c);
    OrderShifts(rules, EPOCH_YEAR + k, year, c * SECS_PER_REPEAT);
  }

  lemma {:induction false} LaterBefore(rules: Rules, y: int, z: int)
    requires ValidRules(rules) && InOrder(rules) && y < z
    ensures Later(rules, y) <= Earlier(rules, z)
    decreases z - y
  {
    AlwaysInOrder(rules, z - 1);
    if y < z - 1 {
      LaterBefore(rules, y, z - 1);
    }
  }

  /** The entry in force is the one that the time has reached and not the next. */
  lemma EntryInForce(z: L.Zone, t: int, i: nat)
    requires L.ValidZone(z) && ReachedBy(z.ats, i, t)
    ensures L.TypeInTable(z, t) == z.types[i]
  {
    assert z.ats[0] <= z.ats[i];
    var j := L.LastTransition(z.ats, t);
    assert j == i;
  }

  /** What a rule zone shows for the first, or the second, change of a year. */
  ghost function TypeAfter(rules: Rules, year: int, second: bool): L.TimeType
    requires ValidRules(rules)
  {
    if (StartOf(rules, year) > EndOf(rules, year)) == second then L.TimeType(-rules.dstoffset, 1)
    else L.TimeType(-rules.stdoffset, 0)
  }

  /** From the first or the second change of a year to the change after it. */
  ghost predicate Between(rules: Rules, year: int, second: bool, t: int)
    requires ValidRules(rules)
  {
    if second then Later(rules, year) <= t < Earlier(rules, year + 1) else Earlier(rules, year) <= t < Later(rules, year)
  }

  lemma TypesOfYear(ats: seq<int>, types: seq<nat>, rules: Rules, k: nat)
    requires ValidRules(rules) && RuleTableOk(ats, types, rules) && 2 * k + 1 < |ats|
    ensures types[2 * k] < 2 && types[2 * k + 1] < 2
    ensures RuleZone(ats, types, rules).ttis[types[2 * k]] == TypeAfter(rules, EPOCH_YEAR + k, false)
    ensures RuleZone(ats, types, rules).ttis[types[2 * k + 1]] == TypeAfter(rules, EPOCH_YEAR + k, true)
  {
    PairOfYear(ats, types, rules, k);
  }

  /** A time that entry i of the table has reached, and the next has not. */
  predicate ReachedBy(ats: seq<int>, i: nat, t: int) {
    i < |ats| && ats[i] <= t && (i + 1 < |ats| ==> t < ats[i + 1])
  }

  lemma ReachedInYear(ats: seq<int>, types: seq<nat>, rules: Rules, k: nat, second: bool, t: int)
    requires ValidRules(rules) && RuleTableOk(ats, types, rules) && 2 * k + 1 < |ats|
    requires Between(rules, EPOCH_YEAR + k, second, t)
    ensures ReachedBy(ats, if second then 2 * k + 1 else 2 * k, t)
  {
    EntriesOfYear(ats, types, rules, k);
    if second && 2 * k + 3 < |ats| {
      EntriesOfYear(ats, types, rules, k + 1);
    }
  }

  lemma InTable(ats: seq<int>, types: seq<nat>, rules: Rules, k: nat, second: bool, t: int)
    requires ValidRules(rules) && RuleTableOk(ats, types, rules) && 2 * k + 1 < |ats|
    requires Between(rules, EPOCH_YEAR + k, second, t) && L.ValidZone(RuleZone(ats, types, rules))
    ensures var z := RuleZone(ats, types, rules); z.ttis[L.TypeInTable(z, t)] == TypeAfter(rules, EPOCH_YEAR + k, second)
  {
    TypesOfYear(ats, types, rules, k);
    ReachedInYear(ats, types, rules, k, second, t);
    EntryInForce(RuleZone(ats, types, rules), t, if second then 2 * k + 1 else 2 * k);
  }

  lemma ShiftBetween(rules: Rules, year: int, second: bool, t: int, c: int) returns (y: int, u: int)
    requires ValidRules(rules) && Between(rules, year, second, t)
    ensures u == t + c * SECS_PER_REPEAT && Between(rules, y, second, u)
    ensures TypeAfter(rules, y, second) == TypeAfter(rules, year, second)
  {
    y, u := year + 400 * c, t + c * SECS_PER_REPEAT;
    ChangesShift(rules, year, c);
    ChangesShift(rules, year + 1, c);
  }

  lemma NotBefore(rules: Rules, year: int, second: bool, t: int)
    requires ValidRules(rules) && InOrder(rules) && Between(rules, year, second, t) && Earlier(rules, EPOCH_YEAR) <= t
    ensures EPOCH_YEAR <= year
  {
    if year < EPOCH_YEAR {
      LaterBefore(rules, year, EPOCH_YEAR);
      if year + 1 < EPOCH_YEAR {
        LaterBefore(rules, year + 1, EPOCH_YEAR);
      }
    }
  }

  /** The types on either side of the end of the table agree, if its last change is not before the next one. */
  ghost predicate SeamAgrees(rules: Rules)
    requires ValidRules(rules)
  {
    forall year, second :: year > LAST_YEAR && Between(rules, year, second, Later(rules, LAST_YEAR)) ==>
      TypeAfter(rules, year, second) == TypeAfter(rules, LAST_YEAR, true)
  }

  /** Past the last year the table reaches no further than its last entry. */
  lemma NotAfter(rules: Rules, year: int, second: bool, t: int)
    requires ValidRules(rules) && InOrder(rules) && Between(rules, year, second, t) && year > LAST_YEAR
    ensures Later(rules, LAST_YEAR) <= t
    ensures Later(rules, LAST_YEAR) < Earlier(rules, LAST_YEAR + 1) ==> Later(rules, LAST_YEAR) < t
  {
    AlwaysInOrder(rules, LAST_YEAR);
    if year > LAST_YEAR + 1 {
      LaterBefore(rules, LAST_YEAR + 1, year);
    }
  }

  /** Changes that do not coincide there leave nothing to agree on. */
  lemma StrictSeamAgrees(rules: Rules)
    requires ValidRules(rules) && InOrder(rules) && Later(rules, LAST_YEAR) < Earlier(rules, LAST_YEAR + 1)
    ensures SeamAgrees(rules)
  {
    forall year, second: bool | year > LAST_YEAR ensures !Between(rules, year, second, Later(rules, LAST_YEAR)) {
      if Between(rules, year, second, Later(rules, LAST_YEAR)) {
        NotAfter(rules, year, second, Later(rules, LAST_YEAR));
      }
    }
  }

  lemma EndsOfTable(ats: seq<int>, types: seq<nat>, rules: Rules)
    requires ValidRules(rules) && RuleTableOk(ats, types, rules) && |ats| == TZ_MAX_TIMES
    ensures ats[0] == Earlier(rules, EPOCH_YEAR) && ats[TZ_MAX_TIMES - 1] == Later(rules, LAST_YEAR)
  {
    EntriesOfYear(ats, types, rules, 0);
    EntriesOfYear(ats, types, rules, TZ_MAX_TIMES / 2 - 1);
  }

  /** The last entry of the table. */
  lemma AtTheEnd(ats: seq<int>, types: seq<nat>, rules: Rules)
    requires ReadRules(rules) && RuleTableOk(ats, types, rules) && |ats| == TZ_MAX_TIMES
    requires L.ValidZone(RuleZone(ats, types, rules))
    ensures var z := RuleZone(ats, types, rules);
            z.ttis[L.TypeInTable(z, Later(rules, LAST_YEAR))] == TypeAfter(rules, LAST_YEAR, true)
  {
    LastEntry(ats, types, rules, |ats| / 2 - 1);
  }

  lemma LastEntry(ats: seq<int>, types: seq<nat>, rules: Rules, k: nat)
    requires ValidRules(rules) && RuleTableOk(ats, types, rules) && |ats| == 2 * k + 2
    requires L.ValidZone(RuleZone(ats, types, rules))
    ensures var z := RuleZone(ats, types, rules);
            z.ttis[L.TypeInTable(z, Later(rules, EPOCH_YEAR + k))] == TypeAfter(rules, EPOCH_YEAR + k, true)
  {
    TypesOfYear(ats, types, rules, k);
    EntriesOfYear(ats, types, rules, k);
    EntryInForce(RuleZone(ats, types, rules), Later(rules, EPOCH_YEAR + k), 2 * k + 1);
  }

  lemma AtSeam(rules: Rules, year: int, second: bool, t: int)
    requires ValidRules(rules) && InOrder(rules) && SeamAgrees(rules) && Between(rules, year, second, t)
    requires year > LAST_YEAR && t <= Later(rules, LAST_YEAR)
    ensures t == Later(rules, LAST_YEAR) && TypeAfter(rules, year, second) == TypeAfter(rules, LAST_YEAR, true)
  {
    NotAfter(rules, year, second, t);
  }

  lemma InWholeTable(ats: seq<int>, types: seq<nat>, rules: Rules, year: int, second: bool, t: int)
    requires ReadRules(rules) && RuleTableOk(ats, types, rules) && |ats| == TZ_MAX_TIMES && InOrder(rules)
    requires L.ValidZone(RuleZone(ats, types, rules)) && SeamAgrees(rules)
    requires Between(rules, year, second, t) && ats[0] <= t <= ats[|ats| - 1]
    ensures var z := RuleZone(ats, types, rules); z.ttis[L.TypeInTable(z, t)] == TypeAfter(rules, year, second)
  {
    EndsOfTable(ats, types, rules);
    NotBefore(rules, year, second, t);
    if year <= LAST_YEAR {
      InTable(ats, types, rules, year - EPOCH_YEAR, second, t);
    } else {
      AtSeam(rules, year, second, t);
      AtTheEnd(ats, types, rules);
    }
  }

  lemma InOrderIsZone(ats: seq<int>, types: seq<nat>, rules: Rules)
    requires ReadRules(rules) && RuleTableOk(ats, types, rules) && |ats| == TZ_MAX_TIMES && InOrder(rules)
    ensures L.ValidZone(RuleZone(ats, types, rules))
  {
    TableIsZone(ats, types, rules);
  }

  /** At t, between two changes, the zone shows what the change before it began. */
  ghost predicate Obeys(z: L.Zone, rules: Rules, year: int, second: bool, t: int)
    requires ValidRules(rules) && L.ValidZone(z)
  {
    Between(rules, year, second, t) ==> L.TypeAt(z, t) == TypeAfter(rules, year, second)
  }

  lemma ObeyedAt(ats: seq<int>, types: seq<nat>, rules: Rules, year: int, second: bool, t: int)
    requires ReadRules(rules) && RuleTableOk(ats, types, rules) && |ats| == TZ_MAX_TIMES && InOrder(rules)
    requires L.ValidZone(RuleZone(ats, types, rules)) && SeamAgrees(rules)
    ensures Obeys(RuleZone(ats, types, rules), rules, year, second, t)
  {
    if Between(rules, year, second, t) {
      var c := FoldOfTable(ats, types, rules, t);
      var y, u := ShiftBetween(rules, year, second, t, -c);
      InWholeTable(ats, types, rules, y, second, u);
    }
  }

  lemma ObeyedAtTheEnd(ats: seq<int>, types: seq<nat>, rules: Rules, year: int, second: bool)
    requires ReadRules(rules) && RuleTableOk(ats, types, rules) && |ats| == TZ_MAX_TIMES
    requires L.ValidZone(RuleZone(ats, types, rules)) && Between(rules, year, second, Later(rules, LAST_YEAR))
    requires Obeys(RuleZone(ats, types, rules), rules, year, second, Later(rules, LAST_YEAR))
    ensures TypeAfter(rules, year, second) == TypeAfter(rules, LAST_YEAR, true)
  {
    AtTheEnd(ats, types, rules);
    EndsOfTable(ats, types, rules);
    assert ats[0] <= ats[|ats| - 1];
  }

  /**
    The zone of a TZ string obeys its rules in every year, before, in and after the table, if and only if
    the types agree at the end of the table: from the start rule to the end rule daylight saving time is in
    force, from the end to the start standard time, and between the last change of a year and the first of
    the next what the last change began.
   */
  lemma RulesAreInForce(ats: seq<int>, types: seq<nat>, rules: Rules)
    requires ReadRules(rules) && RuleTableOk(ats, types, rules) && |ats| == TZ_MAX_TIMES && InOrder(rules)
    ensures L.ValidZone(RuleZone(ats, types, rules))
    ensures (forall year, second, t :: Obeys(RuleZone(ats, types, rules), rules, year, second, t)) <==> SeamAgrees(rules)
  {
    var z := RuleZone(ats, types, rules);
    InOrderIsZone(ats, types, rules);
    if SeamAgrees(rules) {
      forall year, second, t ensures Obeys(z, rules, year, second, t) {
        ObeyedAt(ats, types, rules, year, second, t);
      }
    }
    if forall year, second, t :: Obeys(z, rules, year, second, t) {
      forall year, second | year > LAST_YEAR && Between(rules, year, second, Later(rules, LAST_YEAR))
        ensures TypeAfter(rules, year, second) == TypeAfter(rules, LAST_YEAR, true)
      {
        assert Obeys(z, rules, year, second, Later(rules, LAST_YEAR));
        ObeyedAtTheEnd(ats, types, rules, year, second);
      }
    }
  }

  lemma FoldOfTable(ats: seq<int>, types: seq<nat>, rules: Rules, t: int) returns (c: int)
    requires |ats| > 0 && L.ValidZone(RuleZone(ats, types, rules))
    ensures var z, u := RuleZone(ats, types, rules), t + (-c) * SECS_PER_REPEAT;
            L.TypeAt(z, t) == z.ttis[L.TypeInTable(z, u)] && ats[0] <= u <= ats[|ats| - 1]
  {
    c := L.FoldIsCycles(RuleZone(ats, types, rules), t);
  }

  /**
    They disagree for daylight saving time all year round: the second at the end of the table shows
    standard time.
   */
  lemma SeamShowsStandardTime() returns (rules: Rules)
    ensures ReadRules(rules) && InOrder(rules) && !SeamAgrees(rules)
    ensures TypeAfter(rules, LAST_YEAR, true).isdst == 0
    ensures StartOf(rules, LAST_YEAR + 1) <= Later(rules, LAST_YEAR) < EndOf(rules, LAST_YEAR + 1)
  {
    rules := Rules(DayOfYear(0, 0), JulianDay(365, 25 * 3600), 5 * 3600, 4 * 3600);
    forall year ensures EndOf(rules, year) == StartOf(rules, year + 1) && StartOf(rules, year) < EndOf(rules, year) {
      NextYear(year);
    }
    forall k: nat | 2 * k + 3 < TZ_MAX_TIMES ensures YearsInOrder(rules, EPOCH_YEAR + k) {
    }
    assert Between(rules, LAST_YEAR + 1, false, Later(rules, LAST_YEAR));
  }
}
