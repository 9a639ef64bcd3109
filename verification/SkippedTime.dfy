/** A request that a change of offset skips and another time shows need not be found. */
module SkippedTime {
  import opened Arithmetic
  import opened Basics
  import opened CInt
  import opened Calendar
  import opened TimeSub
  import opened LocalSub
  import opened Time2Sub

  /** A clock that goes forward by ten seconds at 100 and back by 110 at 200. */
  function ForthAndBack(t: int): int {
    if t < 100 then t else if t < 200 then t + 10 else t - 100
  }

  /** A zone that shows it. */
  ghost predicate Ticks(z: Zone) {
    ValidZone(z) && TableInRange(z) && forall t :: LocalSecond(z, t) == ForthAndBack(t)
  }

  lemma TicksAt(z: Zone, t: int)
    requires Ticks(z)
    ensures LocalSecond(z, t) == ForthAndBack(t)
  {
  }

  lemma SuchAZone() returns (z: Zone)
    ensures Ticks(z)
  {
    z := Zone([100, 200], [1, 2], [TimeType(0, 0), TimeType(10, 0), TimeType(-100, 0)], false, false);
    forall t ensures LocalSecond(z, t) == ForthAndBack(t) {
      assert !Before(z, t) && !After(z, t);
      if t >= 100 {
        var i := LastTransition(z.ats, t);
        assert i == if t < 200 then 0 else 1;
      }
    }
  }

  /** A request for local second 105, which is skipped at 100 and shown at 205. */
  predicate Asks(your: Tm) {
    Request(your) && Ordinary(your) && SecondOf(your) == 105
  }

  lemma SuchARequest() returns (your: Tm)
    ensures Asks(your)
  {
    your := Tm(45, 1, 0, 1, 0, 70, 0, 0, 0);
    assert DaysToYear(EPOCH_YEAR) == 0;
  }

  // ---------- where the probes lead ----------

  /** If no probe of a range stops, the probes lead nowhere. */
  lemma {:induction false} NothingThere(way: int -> int, lo: int, hi: int)
    requires lo <= hi && forall t :: lo <= t <= hi ==> way(t) != 0
    ensures Leads(way, lo, hi) == None
    decreases hi - lo
  {
    var t := Mid(lo, hi);
    var (lo', hi') := Narrow(lo, hi, t, way(t));
    if lo' <= hi' && hi' - lo' < hi - lo {
      NothingThere(way, lo', hi');
    }
  }

  lemma Halved(way: int -> int, lo: int, p: int)
    requires lo == -1 && p >= 2 && way(p - 1) > 0
    ensures Leads(way, lo, 2 * p - 1) == Leads(way, lo, p - 1)
  {
    assert Mid(lo, 2 * p - 1) == p - 1;
  }

  /** The probe p - 1, for p a power of two from 128 on, is past the request. */
  ghost predicate Past(way: int -> int, k: nat) {
    way(128 * Pow2(k) - 1) > 0
  }

  /** A function that is the same at 2p as at p, for those powers. */
  ghost predicate SameDoubled(g: int -> Option<int>, i: nat) {
    g(128 * Pow2(i + 1)) == g(128 * Pow2(i))
  }

  lemma {:induction false} Doubled(g: int -> Option<int>, k: nat)
    requires forall i :: 0 <= i < k ==> SameDoubled(g, i)
    ensures g(128 * Pow2(k)) == g(128)
  {
    if k > 0 {
      Doubled(g, k - 1);
      assert SameDoubled(g, k - 1);
    }
  }

  /** Where the probes lead from below p. */
  ghost function Below(way: int -> int, lo: int): int -> Option<int> {
    p => if lo < p then Leads(way, lo, p - 1) else None
  }

  lemma BelowDoubled(way: int -> int, lo: int, i: nat)
    requires lo == -1 && Past(way, i)
    ensures SameDoubled(Below(way, lo), i)
  {
    Halved(way, lo, 128 * Pow2(i));
  }

  /** From 128 * 2^k - 1 the probes halve the range. */
  lemma Halves(way: int -> int, lo: int, k: nat)
    requires lo == -1 && forall i :: 0 <= i < k ==> Past(way, i)
    ensures Below(way, lo)(128 * Pow2(k)) == Below(way, lo)(128)
  {
    forall i | 0 <= i < k ensures SameDoubled(Below(way, lo), i) {
      BelowDoubled(way, lo, i);
    }
    Doubled(Below(way, lo), k);
  }

  lemma BelowIs(way: int -> int, lo: int, p: int)
    requires lo < p
    ensures Below(way, lo)(p) == Leads(way, lo, p - 1)
  {
  }

  lemma {:induction false} PowerAdds(i: nat, j: nat)
    ensures Pow2(i + j) == Pow2(i) * Pow2(j)
  {
    if i > 0 {
      PowerAdds(i - 1, j);
    }
  }

  lemma AllOfThem(k: nat)
    requires k == 7
    ensures 128 * Pow2(8 * k) == TIME_MAX + 1
  {
    PowerAdds(28, 28);
    PowerAdds(14, 14);
    PowerAdds(7, 7);
    assert Pow2(7) == 2 * Pow2(6) && Pow2(6) == 2 * Pow2(5) && Pow2(5) == 2 * Pow2(4) && Pow2(4) == 2 * Pow2(3);
  }

  lemma FirstProbe(way: int -> int, lo: int, hi: int)
    requires lo == TIME_MIN && hi == TIME_MAX && way(-1) < 0
    ensures Leads(way, lo, hi) == Leads(way, -1, hi)
  {
    assert Mid(lo, hi) == -1;
  }

  lemma LostBelow(way: int -> int, lo: int, hi: int, n: nat)
    requires lo == TIME_MIN && hi == TIME_MAX && n == 7 && way(-1) < 0
    requires (forall i :: 0 <= i < 8 * n ==> Past(way, i)) && forall t :: -1 <= t <= 127 ==> way(t) != 0
    ensures Leads(way, lo, hi) == None
  {
    FirstProbe(way, lo, hi);
    AllOfThem(n);
    AllTheWay(way, -1, 8 * n, 128);
  }

  lemma AllTheWay(way: int -> int, lo: int, k: nat, p: int)
    requires lo == -1 && p == 128 && (forall i :: 0 <= i < k ==> Past(way, i)) && forall t :: lo <= t < p ==> way(t) != 0
    ensures Leads(way, lo, 128 * Pow2(k) - 1) == None
  {
    Halves(way, lo, k);
    BelowIs(way, lo, 128 * Pow2(k));
    BelowIs(way, lo, p);
    NothingThere(way, lo, p - 1);
  }

  // ---------- the zone and the request ----------

  lemma InBracket(z: Zone, your: Tm, lo: int, hi: int)
    requires Ticks(z) && Asks(your) && IsTime(lo) && IsTime(hi) && lo < hi && Path(lo, hi)
    requires ForthAndBack(lo) <= 105 <= ForthAndBack(hi)
    ensures FirstProbeFits(z, your) && NullsAreExtreme(z, SecondOf(your)) && Bracket(ClockOf(z), SecondOf(your), lo, hi)
  {
    OrdinaryYearsAreShown(z, your);
    TicksAt(z, lo);
    TicksAt(z, hi);
  }

  /** One probe, from a range around the gap. */
  lemma ProbeGoes(z: Zone, your: Tm, lo: int, hi: int, t: int)
    requires Ticks(z) && Asks(your) && IsTime(lo) && IsTime(hi) && lo < hi && Path(lo, hi) && t == Mid(lo, hi)
    requires ForthAndBack(lo) <= 105 <= ForthAndBack(hi)
    ensures ForthAndBack(t) > 105 ==> Direction(z, your, t) > 0
    ensures ForthAndBack(t) < 105 ==> Direction(z, your, t) < 0
  {
    InBracket(z, your, lo, hi);
    DirectionIsRight(z, your, lo, hi);
    TicksAt(z, t);
  }

  lemma NotShown(z: Zone, your: Tm, t: int)
    requires Ticks(z) && Asks(your) && -1 <= t <= 127
    ensures Direction(z, your, t) != 0
  {
    TicksAt(z, t);
    if LocalTime(z, t).Some? {
      ShownSecond(z, t);
      TmCompZero(LocalTime(z, t).value, your);
      if SameFields(LocalTime(z, t).value, your) {
        SameFieldsSameSecond(your, LocalTime(z, t).value);
      }
    }
  }

  lemma {:induction false} PowersBelow(i: nat, k: nat)
    requires i <= k
    ensures Pow2(i) <= Pow2(k) && (i == 0 || Pow2(i) >= 2)
    decreases k
  {
    if i < k {
      PowersBelow(i, k - 1);
    }
  }

  lemma PastTheGap(z: Zone, your: Tm, i: nat, n: nat)
    requires Ticks(z) && Asks(your) && n == 7 && i < 8 * n
    ensures Direction(z, your, 128 * Pow2(i) - 1) > 0
  {
    AllOfThem(n);
    PowersBelow(i, i);
    PowersBelow(i + 1, 8 * n);
    PastFrom(z, your, 128 * Pow2(i));
  }

  lemma PastFrom(z: Zone, your: Tm, p: int)
    requires Ticks(z) && Asks(your) && (p == 128 || p >= 256) && 2 * p - 1 <= TIME_MAX
    ensures Direction(z, your, p - 1) > 0
  {
    ProbeGoes(z, your, -1, 2 * p - 1, p - 1);
  }

  lemma WaysOf(z: Zone, your: Tm, n: nat)
    requires Ticks(z) && Asks(your) && n == 7
    ensures var way := DirectionOf(z, your);
            && way(-1) < 0 && (forall i :: 0 <= i < 8 * n ==> Past(way, i)) && forall t :: -1 <= t <= 127 ==> way(t) != 0
  {
    var way := DirectionOf(z, your);
    ProbeGoes(z, your, TIME_MIN, TIME_MAX, -1);
    forall i | 0 <= i < 8 * n ensures Past(way, i) {
      PastTheGap(z, your, i, n);
    }
    forall t | -1 <= t <= 127 ensures way(t) != 0 {
      NotShown(z, your, t);
    }
  }

  /**
    The time 205 shows the request, but the search ends without it: every probe from above the gap is
    past the request, and what is left holds no time that shows it.
   */
  lemma SkippedIsLost() returns (z: Zone, your: Tm)
    ensures ValidZone(z) && Request(your) && FirstProbeFits(z, your)
    ensures LocalSecond(z, 205) == SecondOf(your) && Skips(ClockOf(z), SecondOf(your), 99)
    ensures Leads(DirectionOf(z, your), TIME_MIN, TIME_MAX) == None
  {
    z := SuchAZone();
    your := SuchARequest();
    Lost(z, your, TIME_MIN, TIME_MAX, 7);
  }

  lemma Lost(z: Zone, your: Tm, lo: int, hi: int, n: nat)
    requires Ticks(z) && Asks(your) && lo == TIME_MIN && hi == TIME_MAX && n == 7
    ensures FirstProbeFits(z, your) && LocalSecond(z, 205) == SecondOf(your) && Skips(ClockOf(z), SecondOf(your), 99)
    ensures Leads(DirectionOf(z, your), lo, hi) == None
  {
    OrdinaryYearsAreShown(z, your);
    TicksAt(z, 205);
    TicksAt(z, 99);
    TicksAt(z, 100);
    WaysOf(z, your, n);
    LostBelow(DirectionOf(z, your), lo, hi, n);
  }
}
