/** localsub: local time from a table of transitions, folded by 400-year cycles. */
module LocalSub {
  import opened Arithmetic
  import opened Basics
  import opened CInt
  import opened Calendar
  import opened TimeSub

  datatype TimeType = TimeType(gmtoff: int, isdst: int)

  /** struct state: transition times, the type each starts, the types, and the fold flags. */
  datatype Zone = Zone(ats: seq<int>, types: seq<nat>, ttis: seq<TimeType>, goback: bool, goahead: bool)

  const WINDOW: nat := 2 * YEARS_PER_REPEAT

  predicate Sorted(ats: seq<int>) {
    forall i, j :: 0 <= i <= j < |ats| ==> ats[i] <= ats[j]
  }

  predicate DifferByRepeat(t1: int, t0: int) {
    t1 - t0 == SECS_PER_REPEAT
  }

  /**
    A loaded zone: a sorted table of 64-bit times, offsets that were read as 32-bit numbers, and
    fold flags set only where the table shows a cycle.
   */
  predicate ValidZone(z: Zone) {
    && |z.types| == |z.ats| && |z.ttis| >= 1
    && (forall i :: 0 <= i < |z.types| ==> z.types[i] < |z.ttis|)
    && (forall i :: 0 <= i < |z.ttis| ==> IsInt(z.ttis[i].gmtoff))
    && (forall i :: 0 <= i < |z.ats| ==> IsTime(z.ats[i]))
    && Sorted(z.ats)
    && (z.goback ==> |z.ats| > WINDOW && z.types[WINDOW] == z.types[0] && DifferByRepeat(z.ats[WINDOW], z.ats[0]))
    && (z.goahead ==>
          var last := |z.ats| - 1;
          |z.ats| > WINDOW && z.types[last] == z.types[last - WINDOW] &&
          DifferByRepeat(z.ats[last], z.ats[last - WINDOW]))
  }

  predicate Before(z: Zone, t: int)
    requires ValidZone(z)
  {
    z.goback && t < z.ats[0]
  }

  predicate After(z: Zone, t: int)
    requires ValidZone(z)
  {
    z.goahead && t > z.ats[|z.ats| - 1]
  }

  /**
    The time inside the table that stands for t in the periodic extension of the table:
    one 400-year cycle is added or taken off until t is inside.
   */
  ghost function Fold(z: Zone, t: int): (u: int)
    requires ValidZone(z)
    ensures !Before(z, t) && !After(z, t) ==> u == t
    ensures !Before(z, u) && !After(z, u)
    ensures Before(z, t) || After(z, t) ==> z.ats[0] <= u <= z.ats[|z.ats| - 1]
    decreases if Before(z, t) then z.ats[0] - t else if After(z, t) then t - z.ats[|z.ats| - 1] else 0
  {
    if Before(z, t) then Fold(z, t + SECS_PER_REPEAT)
    else if After(z, t) then Fold(z, t - SECS_PER_REPEAT)
    else t
  }

  /** The first type that is not daylight saving time, or 0. */
  function FirstStandardFrom(ttis: seq<TimeType>, i: nat): (r: nat)
    requires i < |ttis|
    ensures r < |ttis|
    ensures || (i <= r && ttis[r].isdst == 0 && forall k :: i <= k < r ==> ttis[k].isdst != 0)
            || (r == 0 && forall k :: i <= k < |ttis| ==> ttis[k].isdst != 0)
    decreases |ttis| - i
  {
    if ttis[i].isdst == 0 then i else if i + 1 == |ttis| then 0 else FirstStandardFrom(ttis, i + 1)
  }

  /** The last transition at or before t. */
  ghost function LastTransition(ats: seq<int>, t: int): (i: nat)
    requires |ats| > 0 && ats[0] <= t
    ensures i < |ats| && ats[i] <= t && forall j :: i < j < |ats| ==> t < ats[j]
  {
    if ats[|ats| - 1] <= t then |ats| - 1 else LastTransition(ats[..|ats| - 1], t)
  }

  /** The type in force at t according to the table alone. */
  ghost function TypeInTable(z: Zone, t: int): (i: nat)
    requires ValidZone(z)
    ensures i < |z.ttis|
  {
    if |z.ats| == 0 || t < z.ats[0] then FirstStandardFrom(z.ttis, 0) else z.types[LastTransition(z.ats, t)]
  }

  /** The type in force at t in the 400-year periodic extension of the table. */
  ghost function TypeAt(z: Zone, t: int): (tt: TimeType)
    requires ValidZone(z)
  {
    z.ttis[TypeInTable(z, Fold(z, t))]
  }

  /** The local date of t in the periodic extension, or NULL if a year does not fit an int. */
  ghost function LocalTime(z: Zone, t: int): (r: Option<Tm>)
    requires ValidZone(z)
  {
    Shown(Fold(z, t), t, TypeAt(z, t))
  }

  /**
    The date of t under one type, if the table's time u for it is representable, with the
    weekday that is written for u.
   */
  ghost function Shown(u: int, t: int, tt: TimeType): (r: Option<Tm>) {
    Show(Representable(u, tt.gmtoff), TmOf(t + tt.gmtoff).(wday := Written(u + tt.gmtoff).wday), tt.isdst)
  }

  function Show(ok: bool, tm: Tm, isdst: int): (r: Option<Tm>) {
    if ok && IsInt(tm.year) then Some(tm.(isdst := isdst)) else None
  }

  /**
    LocalTime is the date of t plus the offset in force, valid but for the weekday, and that one
    is right if and only if the year of the time in the table, less 1970, fits an int.
   */
  lemma LocalTimeIsTheDate(z: Zone, t: int)
    requires ValidZone(z) && LocalTime(z, t).Some?
    ensures var tm, tt := LocalTime(z, t).value, TypeAt(z, t);
            && ValidTime(tm) && ValidDate(tm) && Valid(tm.(wday := Weekday(DayOf(tm))))
            && SecondOf(tm) == t + tt.gmtoff && IsInt(tm.year) && tm.isdst == tt.isdst
            && (Valid(tm) <==> IsInt(YearOf((Fold(z, t) + tt.gmtoff) / SECS_PER_DAY) - EPOCH_YEAR))
  {
    var k := FoldIsCycles(z, t);
    ShownIsTheDate(Fold(z, t), t, k, TypeAt(z, t));
  }

  lemma ShownIsTheDate(u: int, t: int, k: int, tt: TimeType)
    requires t == u + k * SECS_PER_REPEAT && Shown(u, t, tt).Some?
    ensures var tm := Shown(u, t, tt).value;
            && ValidTime(tm) && ValidDate(tm) && Valid(tm.(wday := Weekday(DayOf(tm))))
            && SecondOf(tm) == t + tt.gmtoff
            && (Valid(tm) <==> IsInt(YearOf((u + tt.gmtoff) / SECS_PER_DAY) - EPOCH_YEAR))
  {
    var s := u + tt.gmtoff;
    assert t + tt.gmtoff == s + SECS_PER_REPEAT * k;
    TmRepeats(s, k);
    WeekdayIsRight(s);
    WithWeekday(TmOf(t + tt.gmtoff), Written(s).wday, tt.isdst);
  }

  lemma WeekdayIsRight(s: int)
    ensures Written(s).wday == TmOf(s).wday <==> IsInt(YearOf(s / SECS_PER_DAY) - EPOCH_YEAR)
  {
    YearOfDate(s);
    FourDaysLate(DayOf(TmOf(s)) + EPOCH_WDAY);
  }

  lemma WithWeekday(date: Tm, wday: int, isdst: int)
    requires Valid(date)
    ensures var tm := date.(wday := wday, isdst := isdst);
            && ValidTime(tm) && ValidDate(tm) && Valid(tm.(wday := Weekday(DayOf(tm))))
            && SecondOf(tm) == SecondOf(date) && (Valid(tm) <==> wday == date.wday)
  {
  }

  // ---------- the closed form of the fold ----------

  /** Folding backward k cycles at once, when k is the least number that reaches the table. */
  lemma {:induction false} FoldBackward(z: Zone, t: int, k: int)
    requires ValidZone(z) && z.goback && k >= 1
    requires z.ats[0] <= t + k * SECS_PER_REPEAT < z.ats[0] + SECS_PER_REPEAT
    ensures Before(z, t) && Fold(z, t) == t + k * SECS_PER_REPEAT
    decreases k
  {
    if k == 1 {
      assert t + SECS_PER_REPEAT < z.ats[WINDOW];
    } else {
      FoldBackward(z, t + SECS_PER_REPEAT, k - 1);
    }
  }

  lemma {:induction false} FoldForward(z: Zone, t: int, k: int)
    requires ValidZone(z) && z.goahead && k >= 1
    requires z.ats[|z.ats| - 1] - SECS_PER_REPEAT < t - k * SECS_PER_REPEAT <= z.ats[|z.ats| - 1]
    ensures After(z, t) && (!Before(z, t) ==> Fold(z, t) == t - k * SECS_PER_REPEAT)
    decreases k
  {
    var last := |z.ats| - 1;
    assert z.ats[0] <= z.ats[last - WINDOW] <= z.ats[last];
    if k > 1 {
      FoldForward(z, t - SECS_PER_REPEAT, k - 1);
    }
  }

  lemma CyclesByTwoDivisions(s: int)
    requires s >= 0
    ensures var k := s / YEARS_PER_REPEAT / 31556952;
            k * SECS_PER_REPEAT <= s < (k + 1) * SECS_PER_REPEAT
  {
    var a := s / YEARS_PER_REPEAT;
    var k := a / 31556952;
    assert a == k * 31556952 + a % 31556952;
    assert s == a * 400 + s % 400;
  }

  // ---------- the fold in 64 bits ----------

  /** The end of the table that a time outside is nearer to, and how far away. */
  function NearEnd(z: Zone, t: int): int
    requires ValidZone(z) && (Before(z, t) || After(z, t))
  {
    if t < z.ats[0] then z.ats[0] else z.ats[|z.ats| - 1]
  }

  function Distance(z: Zone, t: int): int
    requires ValidZone(z) && (Before(z, t) || After(z, t))
  {
    if t < z.ats[0] then NearEnd(z, t) - t else t - NearEnd(z, t)
  }

  /** The whole cycles in a distance that has wrapped around, rounded toward zero. */
  lemma CyclesBelowZero(s: int)
    requires s < 0
    ensures var k := -Div(Div(s, YEARS_PER_REPEAT), 31556952);
            k >= 0 && k * SECS_PER_REPEAT <= -s < (k + 1) * SECS_PER_REPEAT
  {
    CyclesByTwoDivisions(-s);
  }

  /** 2^64 seconds are no whole number of cycles, so wrapping around never leads to the same time. */
  lemma NoWholeCycles(c: int, w: int)
    requires 0 < (c - w) * SECS_PER_REPEAT <= 0x1_0000_0000_0000_0000
    ensures (c - w) * SECS_PER_REPEAT != 0x1_0000_0000_0000_0000
  {
    if (c - w) * SECS_PER_REPEAT == 0x1_0000_0000_0000_0000 {
      DivUnique(0x1_0000_0000_0000_0000, SECS_PER_REPEAT, c - w, 0);
    }
  }

  /**
    The cycles by which localsub moves a time, from a distance less one that was computed in 64
    bits: the right number if it fits, else another one that leads elsewhere.
   */
  lemma CyclesOf(d: int, c: int, w: int)
    requires 1 <= d < 0x1_0000_0000_0000_0000
    requires w == Div(Div(Wrap64(d - 1), YEARS_PER_REPEAT), 31556952) + 1
    requires (c - 1) * SECS_PER_REPEAT <= d - 1 < c * SECS_PER_REPEAT
    ensures IsTime(d - 1) ==> w == c
    ensures !IsTime(d - 1) ==> 0 < (c - w) * SECS_PER_REPEAT < 0x1_0000_0000_0000_0000
    ensures !IsTime(d - 1) && d < 0xc000_0000_0000_0000 ==> w < -300_000_000
    ensures -800_000_000 <= w <= 800_000_000
  {
    if IsTime(d - 1) {
      CyclesByTwoDivisions(d - 1);
    } else {
      var s := d - 1 - 0x1_0000_0000_0000_0000;
      Wrap64Shift(s, 1);
      CyclesBelowZero(s);
      NoWholeCycles(c, w);
    }
  }

  // ---------- the code ----------

  /** The initial type: the first that is not daylight saving time. */
  method InitialType(z: Zone) returns (i: nat)
    requires ValidZone(z)
    ensures i == FirstStandardFrom(z.ttis, 0)
  {
    i := 0;
    while z.ttis[i].isdst != 0
      invariant i < |z.ttis| && FirstStandardFrom(z.ttis, 0) == FirstStandardFrom(z.ttis, i)
      decreases |z.ttis| - i
    {
      if i + 1 >= |z.ttis| {
        return 0;
      }
      i := i + 1;
    }
  }

  /** Binary search for the last transition at or before t. */
  method SearchTransition(z: Zone, t: int) returns (i: nat)
    requires ValidZone(z) && |z.ats| > 0 && z.ats[0] <= t
    ensures i == LastTransition(z.ats, t)
  {
    var lo, hi := 1, |z.ats|;
    while lo < hi
      invariant 1 <= lo <= hi <= |z.ats|
      invariant z.ats[lo - 1] <= t && (hi < |z.ats| ==> t < z.ats[hi])
    {
      var mid := (lo + hi) / 2;
      if t < z.ats[mid] {
        hi := mid;
      } else {
        lo := mid + 1;
      }
    }
    i := lo - 1;
  }

  /** localsub for a time the table answers directly. */
  method InsideTable(z: Zone, t: int) returns (r: Option<Tm>)
    requires ValidZone(z) && !Before(z, t) && !After(z, t)
    ensures r == LocalTime(z, t)
  {
    var i := TypeNow(z, t);
    r := Compute(t, z.ttis[i].gmtoff);
    IntOffsetIsUsed(t, z.ttis[i].gmtoff);
    DirectlyShown(t, z.ttis[i]);
    if r.Some? {
      r := Some(r.value.(isdst := z.ttis[i].isdst));
    }
  }

  /** The type in force at t. */
  method TypeNow(z: Zone, t: int) returns (i: nat)
    requires ValidZone(z)
    ensures i == TypeInTable(z, t)
  {
    if |z.ats| == 0 || t < z.ats[0] {
      i := InitialType(z);
    } else {
      var k := SearchTransition(z, t);
      i := z.types[k];
    }
  }

  lemma DirectlyShown(t: int, tt: TimeType)
    ensures Shown(t, t, tt) ==
            var r := BrokenDown(t, tt.gmtoff); if r.Some? then Some(r.value.(isdst := tt.isdst)) else None
  {
    YearOfDate(t + tt.gmtoff);
  }

  /**
    The fold of localsub in 64-bit arithmetic: the number of cycles by two divisions and the time
    they lead to.  It is the fold, so that the return marked "cannot happen" is dead, if and only
    if the distance from the table, less one, fits a time_t.  Otherwise either the table is too
    far away to be shown, or the years to add are too many.
   */
  method FoldTime(z: Zone, t: int) returns (newt: int, years: int, ghost k: int)
    requires ValidZone(z) && IsTime(t) && (Before(z, t) || After(z, t))
    ensures newt == NewTime(t, NearEnd(z, t), t < z.ats[0])
    ensures newt == Fold(z, t) <==> IsTime(Distance(z, t) - 1)
    ensures IsTime(Distance(z, t) - 1) ==>
              z.ats[0] <= newt <= z.ats[|z.ats| - 1] && years == 400 * k && t == newt + k * SECS_PER_REPEAT
    ensures !IsTime(Distance(z, t) - 1) ==> FarTable(z, t) || years < -FAR_YEARS || FAR_YEARS < years
  {
    ghost var c := FoldCycles(z, t);
    k := if t < z.ats[0] then -c else c;
    newt, years := MoveByCycles(t, NearEnd(z, t), t < z.ats[0], c);
  }

  /** t moved c cycles up or down. */
  function Moved(t: int, c: int, back: bool): int {
    if back then t + c * SECS_PER_REPEAT else t - c * SECS_PER_REPEAT
  }

  /** The time that the fold leads to from one end of the table, with the distance in 64 bits. */
  function NewTime(t: int, end: int, back: bool): int {
    var d := if back then end - t else t - end;
    Wrap64(Moved(t, Div(Div(Wrap64(d - 1), YEARS_PER_REPEAT), 31556952) + 1, back))
  }

  /** The cycles of a distance that is taken in 64 bits. */
  method CountCycles(distance: int, ghost c: int) returns (cycles: int)
    requires 1 <= distance < 0x1_0000_0000_0000_0000
    requires (c - 1) * SECS_PER_REPEAT <= distance - 1 < c * SECS_PER_REPEAT
    ensures cycles == Div(Div(Wrap64(distance - 1), YEARS_PER_REPEAT), 31556952) + 1
    ensures IsTime(distance - 1) ==> cycles == c
    ensures !IsTime(distance - 1) ==> 0 < (c - cycles) * SECS_PER_REPEAT < 0x1_0000_0000_0000_0000
    ensures !IsTime(distance - 1) && distance < 0xc000_0000_0000_0000 ==> cycles < -300_000_000
    ensures -800_000_000 <= cycles <= 800_000_000
  {
    var seconds := Wrap64(distance);
    Wrap64Sum(distance, -1);
    seconds := Wrap64(seconds - 1);
    cycles := Div(Div(seconds, YEARS_PER_REPEAT), 31556952) + 1;
    CyclesOf(distance, c, cycles);
  }

  /** The arithmetic of the fold from one end of the table, of which c cycles would be right. */
  method MoveByCycles(t: int, end: int, back: bool, ghost c: int) returns (newt: int, years: int)
    requires IsTime(t) && IsTime(end) && (if back then t < end else end < t) && IsTime(Moved(t, c, back))
    requires var d := if back then end - t else t - end;
             (c - 1) * SECS_PER_REPEAT <= d - 1 < c * SECS_PER_REPEAT
    ensures var d := if back then end - t else t - end;
            && newt == NewTime(t, end, back) && (newt == Moved(t, c, back) <==> IsTime(d - 1))
            && (IsTime(d - 1) ==> years == (if back then -c else c) * 400)
            && (!IsTime(d - 1) && d < 0xc000_0000_0000_0000 ==> years < -FAR_YEARS || FAR_YEARS < years)
  {
    var cycles := CountCycles(if back then end - t else t - end, c);
    newt := MoveTime(t, cycles, back);
    years := (if back then -cycles else cycles) * YEARS_PER_REPEAT;
    SameOnlyIfRight(t, c, cycles, back);
  }

  /** The two products and the sum, in 64 bits. */
  method MoveTime(t: int, cycles: int, back: bool) returns (newt: int)
    requires -800_000_000 <= cycles <= 800_000_000
    ensures newt == Wrap64(Moved(t, cycles, back))
  {
    var seconds := Wrap64(Wrap64(cycles * YEARS_PER_REPEAT) * 31556952);
    newt := Wrap64(if back then t + seconds else t - seconds);
    MovedByCycles(t, cycles, back);
  }

  /** The number of cycles between a time outside the table and its fold. */
  lemma FoldCycles(z: Zone, t: int) returns (c: int)
    requires ValidZone(z) && (Before(z, t) || After(z, t))
    ensures (c - 1) * SECS_PER_REPEAT <= Distance(z, t) - 1 < c * SECS_PER_REPEAT
    ensures Fold(z, t) == Moved(t, c, t < z.ats[0])
  {
    var d := Distance(z, t);
    c := (d - 1) / SECS_PER_REPEAT + 1;
    if t < z.ats[0] {
      FoldBackward(z, t, c);
    } else {
      FoldForward(z, t, c);
    }
  }

  lemma MovedByCycles(t: int, w: int, back: bool)
    requires -800_000_000 <= w <= 800_000_000
    ensures var s := Wrap64(Wrap64(w * YEARS_PER_REPEAT) * 31556952);
            Wrap64(if back then t + s else t - s) == Wrap64(Moved(t, w, back))
  {
    var x := w * SECS_PER_REPEAT;
    assert Wrap64(w * YEARS_PER_REPEAT) * 31556952 == x;
    Wrap64Sum(x, t);
    Wrap64Shift(x, 0);
    var k := (x - Wrap64(x)) / 0x1_0000_0000_0000_0000;
    Wrap64Shift(t - x, k);
  }

  /** Two numbers of cycles lead to the same 64-bit time only if they are the same. */
  lemma SameOnlyIfRight(t: int, c: int, w: int, back: bool)
    requires IsTime(Moved(t, c, back)) && (w == c || 0 < (c - w) * SECS_PER_REPEAT < 0x1_0000_0000_0000_0000)
    ensures Wrap64(Moved(t, w, back)) == Moved(t, c, back) <==> w == c
  {
    Wrap64Shift(Moved(t, w, back), 0);
  }

  /**
    A distance that does not fit happens, and then the return marked "cannot happen" can be taken:
    a table of one cycle that begins one second after the epoch, and the earliest time_t.
   */
  lemma FoldCanMiss() returns (z: Zone, t: int)
    ensures ValidZone(z) && IsTime(t) && Before(z, t) && !IsTime(Distance(z, t) - 1)
    ensures NewTime(t, NearEnd(z, t), t < z.ats[0]) > z.ats[|z.ats| - 1]
  {
    z := Zone(seq(WINDOW + 1, i => 1 + i * 15778476), seq(WINDOW + 1, _ => 0), [TimeType(0, 0)], true, false);
    t := TIME_MIN;
    assert z.ats[0] == 1 && z.ats[WINDOW] == 1 + SECS_PER_REPEAT;
  }

  const FAR_YEARS := 100_000_000_000

  /** The end of the table that is nearer to t has a year beyond every int. */
  predicate FarTable(z: Zone, t: int)
    requires ValidZone(z) && (Before(z, t) || After(z, t))
  {
    if t < z.ats[0] then NearEnd(z, t) >= FAR_TIME else NearEnd(z, t) <= -FAR_TIME
  }

  const FAR_TIME := 0x4000_0000_0000_0000

  lemma FarIsNull(u: int, t: int, tt: TimeType)
    requires u >= FAR_TIME || u <= -FAR_TIME
    ensures Shown(u, t, tt).None?
  {
    var d := Div(u, SECS_PER_DAY);
    if u > 0 {
      assert d >= 50_000_000_000_000;
      YearAbove(d, 100_000_000_000);
    } else {
      assert d <= -50_000_000_000_000;
      YearBelow(d, 100_000_000_000);
    }
  }

  lemma FarYearIsNull(u: int, t: int, tt: TimeType)
    requires (t >= FAR_TIME || t <= -FAR_TIME) && IsInt(tt.gmtoff)
    ensures Shown(u, t, tt).None?
  {
    var s := t + tt.gmtoff;
    YearOfDate(s);
    if t > 0 {
      assert s / SECS_PER_DAY >= 50_000_000_000_000;
      YearAbove(s / SECS_PER_DAY, 100_000_000_000);
    } else {
      assert s / SECS_PER_DAY <= -50_000_000_000_000;
      YearBelow(s / SECS_PER_DAY, 100_000_000_000);
    }
  }

  /** A distance that does not fit 64 bits leaves nothing to show. */
  lemma TooFarIsNull(z: Zone, t: int)
    requires ValidZone(z) && IsTime(t) && (Before(z, t) || After(z, t)) && !IsTime(Distance(z, t) - 1)
    ensures LocalTime(z, t).None?
  {
    if FarTable(z, t) {
      FarIsNull(Fold(z, t), t, TypeAt(z, t));
    } else {
      FarYearIsNull(Fold(z, t), t, TypeAt(z, t));
    }
  }

  /** localsub: it answers as the periodic extension of the table does, for every time_t. */
  method Local(z: Zone, t: int) returns (r: Option<Tm>)
    requires ValidZone(z) && IsTime(t)
    ensures r == LocalTime(z, t)
  {
    if Before(z, t) || After(z, t) {
      var newt, years, k := FoldTime(z, t);
      if !IsTime(Distance(z, t) - 1) {
        TooFarIsNull(z, t);
      }
      if newt < z.ats[0] || newt > z.ats[|z.ats| - 1] {
        return None;
      }
      r := InsideTable(z, newt);
      if IsTime(Distance(z, t) - 1) {
        LocalOfFold(z, t, k);
      } else if FarTable(z, t) {
        FarIsNull(newt, newt, TypeAt(z, newt));
      }
      if r.Some? {
        var newy := r.value.year + years;
        if Wrap32(newy) != newy {
          return None;
        }
        r := Some(r.value.(year := newy));
      }
    } else {
      r := InsideTable(z, t);
    }
  }

  // ---------- what the fold means ----------

  lemma {:induction false} FoldIsCycles(z: Zone, t: int) returns (k: int)
    requires ValidZone(z)
    ensures t == Fold(z, t) + k * SECS_PER_REPEAT
    decreases if Before(z, t) then z.ats[0] - t else if After(z, t) then t - z.ats[|z.ats| - 1] else 0
  {
    if Before(z, t) {
      k := FoldIsCycles(z, t + SECS_PER_REPEAT);
      k := k - 1;
    } else if After(z, t) {
      k := FoldIsCycles(z, t - SECS_PER_REPEAT);
      k := k + 1;
    } else {
      k := 0;
    }
  }

  lemma ShownRepeats(u: int, k: int, tt: TimeType)
    ensures var r := Shown(u, u, tt);
            Shown(u, u + k * SECS_PER_REPEAT, tt) ==
            if r.Some? && IsInt(r.value.year + 400 * k) then Some(r.value.(year := r.value.year + 400 * k)) else None
  {
    var s := u + tt.gmtoff;
    TmRepeats(s, k);
    assert u + k * SECS_PER_REPEAT + tt.gmtoff == s + SECS_PER_REPEAT * k;
    YearOfDate(s);
    ShowRepeats(Representable(u, tt.gmtoff), TmOf(s), k, tt.isdst);
  }

  lemma ShowRepeats(ok: bool, tm: Tm, k: int, isdst: int)
    requires ok ==> IsInt(tm.year)
    ensures var r := Show(ok, tm, isdst);
            Show(ok, tm.(year := tm.year + 400 * k), isdst) ==
            if r.Some? && IsInt(r.value.year + 400 * k) then Some(r.value.(year := r.value.year + 400 * k)) else None
  {
  }

  /** The local date of a folded time from that of the time it folds to. */
  lemma LocalOfFold(z: Zone, t: int, k: int)
    requires ValidZone(z) && t == Fold(z, t) + k * SECS_PER_REPEAT
    ensures var r := LocalTime(z, Fold(z, t));
            LocalTime(z, t) == if r.Some? && IsInt(r.value.year + 400 * k)
                               then Some(r.value.(year := r.value.year + 400 * k)) else None
  {
    ShownRepeats(Fold(z, t), k, TypeAt(z, t));
  }

  /**
    A folded time shows the local date of the time it folds to, with the year moved by
    whole cycles and nothing else changed.
   */
  lemma FoldChangesOnlyTheYear(z: Zone, t: int) returns (k: int)
    requires ValidZone(z) && LocalTime(z, t).Some?
    ensures t == Fold(z, t) + k * SECS_PER_REPEAT && LocalTime(z, Fold(z, t)).Some?
    ensures var tm := LocalTime(z, Fold(z, t)).value; LocalTime(z, t).value == tm.(year := tm.year + 400 * k)
  {
    k := FoldIsCycles(z, t);
    LocalOfFold(z, t, k);
  }
}
