/**
  The lock-free strong/weak reference count of RefBase as a state machine.

  One step is one atomic operation on mStrong or mWeak (or one delete) by one of any
  number of threads.  A call and its first atomic operation are one step, since nothing
  shared happens between them.  Which reference a thread holds is recorded per thread;
  a call that borrows a reference keeps it until the call returns.
 */
module RefBase {

  /** The bias of a count that never had a strong reference. */
  const INITIAL_STRONG_VALUE: int := 0x1000_0000

  /** Where a thread is inside RefBase; the comment names the next atomic operation. */
  datatype Pc =
    | Idle
    | IncStrong(first: bool)      // incStrong: increment mStrong
    | SubtractBias                // incStrong: saw the bias, add -INITIAL_STRONG_VALUE
    | DeleteObject                // decStrong: last strong reference gone, delete this
    | DestructorAfterStrong       // ~RefBase run by decStrong: read mStrong
    | DecWeak                     // decWeak called from decStrong or a failed promotion
    | LastWeak                    // decWeak took mWeak to 0: read mStrong or delete mBase
    | DestructorAfterWeak         // ~RefBase run by decWeak: read mStrong
    | DestructorReadWeak          // ~RefBase, extended lifetime: read mWeak
    | Load                        // attemptIncStrong: read mStrong (first loop)
    | Cas(cur: int)               // attemptIncStrong: cmpxchg cur -> cur + 1 (first loop)
    | LoadFirst                   // attemptIncStrong: read mStrong (second loop)
    | CasFirst(cur: int)          // attemptIncStrong: cmpxchg cur -> cur + 1 (second loop)
    | Revive                      // attemptIncStrong, extended lifetime: increment mStrong
    | FixLoad                     // attemptIncStrong: read mStrong (bias fix-up)
    | FixCas(cur: int)            // attemptIncStrong: cmpxchg cur -> cur - INITIAL_STRONG_VALUE
    | WeakLoad                    // attemptIncWeak: read mWeak
    | WeakCas(cur: int)           // attemptIncWeak: cmpxchg cur -> cur + 1

  /** A thread, the references it holds and its position. */
  datatype Thread = Thread(strong: nat, weak: nat, pc: Pc)

  /** How the first strong reference is being obtained. */
  datatype Route =
    | Undecided      // no strong reference asked for yet
    | FirstInc       // an incStrong without a strong reference to lean on is in flight
    | Open           // that incStrong finished, or attemptIncStrong was used first

  /**
    mStrong, mWeak and the lifetime flag, the threads, and the history the properties
    speak of: how often the object, the weakref_impl and the bias were removed, and how
    many promotions took their strong reference.
   */
  datatype State = State(
    mStrong: int, mWeak: int, extended: bool, threads: seq<Thread>,
    untouched: bool, route: Route,
    objectDeletes: nat, implDeletes: nat, biasRemovals: nat, promotions: nat)

  datatype Action =
    | CallIncStrong(i: nat)
    | CallDecStrong(i: nat)
    | CallIncWeak(i: nat)
    | CallDecWeak(i: nat)
    | CallAttemptIncStrong(i: nat)
    | CallAttemptIncWeak(i: nat)
    | GiveStrong(i: nat, j: nat)
    | GiveWeak(i: nat, j: nat)
    | Advance(i: nat, agrees: bool)   // agrees: what onIncStrongAttempted answers, if asked

  /** A thread that holds nothing and is in no call. */
  predicate Unused(t: Thread) {
    t.strong == 0 && t.weak == 0 && t.pc.Idle?
  }

  predicate Init(s: State) {
    && s.mStrong == INITIAL_STRONG_VALUE && s.mWeak == 0
    && (forall k :: 0 <= k < |s.threads| ==> Unused(s.threads[k]))
    && s.untouched && s.route == Undecided
    && s.objectDeletes == 0 && s.implDeletes == 0 && s.biasRemovals == 0 && s.promotions == 0
  }

  // ---------- what a caller must respect ----------

  /** Fewer than 2^28 - 1 references at a time, so the bias cannot be mistaken for a count. */
  predicate RoomForOneMore(s: State) {
    s.mWeak < INITIAL_STRONG_VALUE - 1
  }

  predicate HoldsAny(t: Thread) {
    t.strong + t.weak >= 1
  }

  /**
    A call needs a reference held by its caller, except that the creator of a new object
    has none yet.  An incStrong without a strong reference is the first one: it may not
    overlap attemptIncStrong.
   */
  predicate Enabled(s: State, a: Action) {
    a.i < |s.threads| &&
    var t := s.threads[a.i];
    match a
    case CallIncStrong(_) =>
      t.pc.Idle? && RoomForOneMore(s) && (t.strong >= 1 || (s.route.Undecided? && (s.untouched || t.weak >= 1)))
    case CallDecStrong(_) => t.pc.Idle? && t.strong >= 1
    case CallIncWeak(_) => t.pc.Idle? && RoomForOneMore(s) && (s.untouched || HoldsAny(t))
    case CallDecWeak(_) => t.pc.Idle? && t.weak >= 1
    case CallAttemptIncStrong(_) => t.pc.Idle? && RoomForOneMore(s) && HoldsAny(t) && !s.route.FirstInc?
    case CallAttemptIncWeak(_) => t.pc.Idle? && HoldsAny(t)
    case GiveStrong(_, j) => t.pc.Idle? && t.strong >= 1 && j < |s.threads| && j != a.i
    case GiveWeak(_, j) => t.pc.Idle? && t.weak >= 1 && j < |s.threads| && j != a.i
    case Advance(_, _) => !t.pc.Idle? && (t.pc.WeakCas? ==> RoomForOneMore(s))
  }

  // ---------- the steps ----------

  function Put(s: State, i: nat, t: Thread): State
    requires i < |s.threads|
  {
    s.(threads := s.threads[i := t])
  }

  function Goto(s: State, i: nat, pc: Pc): State
    requires i < |s.threads|
  {
    Put(s, i, s.threads[i].(pc := pc))
  }

  /** decStrong up to the decrement of mStrong. */
  function DecStrongStep(s: State, i: nat): State
    requires i < |s.threads| && s.threads[i].strong >= 1
  {
    var c := s.mStrong;
    var t := s.threads[i];
    var s' := s.(mStrong := c - 1);
    Put(s', i, t.(strong := t.strong - 1, pc := if c == 1 && !s.extended then DeleteObject else DecWeak))
  }

  /** The decrement of mWeak and the test of its old value. */
  function DecWeakStep(s: State, i: nat): State
    requires i < |s.threads|
  {
    var c := s.mWeak;
    Goto(s.(mWeak := c - 1), i, if c == 1 then LastWeak else Idle)
  }

  /** attemptIncStrong up to the increment of mWeak. */
  function AttemptIncStrongStep(s: State, i: nat): State
    requires i < |s.threads|
  {
    Goto(s.(mWeak := s.mWeak + 1, route := Open), i, Load)
  }

  /** What attemptIncStrong does with a new reading of mStrong in its first loop. */
  function AfterLoad(s: State, i: nat, agrees: bool): State
    requires i < |s.threads|
  {
    var cur := s.mStrong;
    if cur > 0 && cur != INITIAL_STRONG_VALUE then Goto(s, i, Cas(cur))
    else if !s.extended then Goto(s, i, if cur <= 0 then DecWeak else CasFirst(cur))
    else Goto(s, i, if agrees then Revive else DecWeak)
  }

  function Promoted(s: State, i: nat): State
    requires i < |s.threads|
  {
    Put(s, i, Thread(s.threads[i].strong + 1, s.threads[i].weak, Idle))
  }

  function AdvanceStep(s: State, i: nat, agrees: bool): State
    requires i < |s.threads| && !s.threads[i].pc.Idle?
  {
    var t := s.threads[i];
    match t.pc
    case IncStrong(first) =>
      var c := s.mStrong;
      var s' := s.(mStrong := c + 1);
      if c != INITIAL_STRONG_VALUE then Promoted(s'.(route := if first then Open else s.route), i)
      else Goto(s', i, SubtractBias)
    case SubtractBias =>
      Promoted(s.(mStrong := s.mStrong - INITIAL_STRONG_VALUE, biasRemovals := s.biasRemovals + 1, route := Open), i)
    case DeleteObject => Goto(s.(objectDeletes := s.objectDeletes + 1), i, DestructorAfterStrong)
    case DestructorAfterStrong =>
      Goto(if s.mStrong == INITIAL_STRONG_VALUE then s.(implDeletes := s.implDeletes + 1) else s, i, DecWeak)
    case DecWeak => DecWeakStep(s, i)
    case LastWeak =>
      if s.extended || s.mStrong == INITIAL_STRONG_VALUE
      then Goto(s.(objectDeletes := s.objectDeletes + 1), i, DestructorAfterWeak)
      else Goto(s.(implDeletes := s.implDeletes + 1), i, Idle)
    case DestructorAfterWeak =>
      if s.mStrong == INITIAL_STRONG_VALUE then Goto(s.(implDeletes := s.implDeletes + 1), i, Idle)
      else Goto(s, i, if s.extended then DestructorReadWeak else Idle)
    case DestructorReadWeak =>
      Goto(if s.mWeak == 0 then s.(implDeletes := s.implDeletes + 1) else s, i, Idle)
    case Load => AfterLoad(s, i, agrees)
    case Cas(cur) =>
      if s.mStrong == cur then Goto(s.(mStrong := cur + 1, promotions := s.promotions + 1), i, FixLoad)
      else Goto(s, i, Load)
    case LoadFirst => Goto(s, i, if s.mStrong > 0 then CasFirst(s.mStrong) else DecWeak)
    case CasFirst(cur) =>
      if s.mStrong == cur then Goto(s.(mStrong := cur + 1, promotions := s.promotions + 1), i, FixLoad)
      else Goto(s, i, LoadFirst)
    case Revive => Goto(s.(mStrong := s.mStrong + 1, promotions := s.promotions + 1), i, FixLoad)
    case FixLoad => if s.mStrong >= INITIAL_STRONG_VALUE then Goto(s, i, FixCas(s.mStrong)) else Promoted(s, i)
    case FixCas(cur) =>
      if s.mStrong == cur
      then Promoted(s.(mStrong := cur - INITIAL_STRONG_VALUE, biasRemovals := s.biasRemovals + 1), i)
      else Goto(s, i, FixLoad)
    case WeakLoad => Goto(s, i, if s.mWeak > 0 then WeakCas(s.mWeak) else Idle)
    case WeakCas(cur) =>
      if s.mWeak == cur then Put(s.(mWeak := cur + 1), i, Thread(t.strong, t.weak + 1, Idle))
      else Goto(s, i, WeakLoad)
  }

  function Apply(s: State, a: Action): State
    requires Enabled(s, a)
  {
    var t := s.threads[a.i];
    match a
    case CallIncStrong(i) =>
      var first := t.strong == 0;
      Goto(s.(mWeak := s.mWeak + 1, untouched := false, route := if first then FirstInc else s.route), i, IncStrong(first))
    case CallDecStrong(i) => DecStrongStep(s, i)
    case CallIncWeak(i) => Put(s.(mWeak := s.mWeak + 1, untouched := false), i, t.(weak := t.weak + 1))
    case CallDecWeak(i) => DecWeakStep(Put(s, i, t.(weak := t.weak - 1)), i)
    case CallAttemptIncStrong(i) => AttemptIncStrongStep(s, i)
    case CallAttemptIncWeak(i) => Goto(s, i, if s.mWeak > 0 then WeakCas(s.mWeak) else Idle)
    case GiveStrong(i, j) =>
      Put(Put(s, i, t.(strong := t.strong - 1)), j, s.threads[j].(strong := s.threads[j].strong + 1))
    case GiveWeak(i, j) =>
      Put(Put(s, i, t.(weak := t.weak - 1)), j, s.threads[j].(weak := s.threads[j].weak + 1))
    case Advance(i, agrees) => AdvanceStep(s, i, agrees)
  }

  // ---------- totals over the threads ----------

  /** What a thread contributes to the counts and in which phase it is. */
  datatype Totals = Totals(strong: int, weak: int, first: int, promoting: int, pending: int, pre: int, post: int)

  function Of(t: Thread): Totals {
    var s, w := t.strong, t.strong + t.weak;
    match t.pc
    case IncStrong(first) => Totals(s, w + 1, if first then 1 else 0, 0, 0, 0, 0)
    case SubtractBias => Totals(s + 1, w + 1, 1, 0, 0, 0, 0)
    case DeleteObject => Totals(s, w + 1, 0, 0, 1, 0, 0)
    case DestructorAfterStrong => Totals(s, w + 1, 0, 0, 0, 0, 0)
    case DecWeak => Totals(s, w + 1, 0, 0, 0, 0, 0)
    case LastWeak => Totals(s, w, 0, 0, 0, 1, 0)
    case DestructorAfterWeak => Totals(s, w, 0, 0, 0, 0, 1)
    case DestructorReadWeak => Totals(s, w, 0, 0, 0, 0, 1)
    case FixLoad => Totals(s + 1, w + 1, 0, 1, 0, 0, 0)
    case FixCas(_) => Totals(s + 1, w + 1, 0, 1, 0, 0, 0)
    case Load => Totals(s, w + 1, 0, 1, 0, 0, 0)
    case Cas(_) => Totals(s, w + 1, 0, 1, 0, 0, 0)
    case LoadFirst => Totals(s, w + 1, 0, 1, 0, 0, 0)
    case CasFirst(_) => Totals(s, w + 1, 0, 1, 0, 0, 0)
    case Revive => Totals(s, w + 1, 0, 1, 0, 0, 0)
    case Idle => Totals(s, w, 0, 0, 0, 0, 0)
    case WeakLoad => Totals(s, w, 0, 0, 0, 0, 0)
    case WeakCas(_) => Totals(s, w, 0, 0, 0, 0, 0)
  }

  function Plus(a: Totals, b: Totals): Totals {
    Totals(a.strong + b.strong, a.weak + b.weak, a.first + b.first, a.promoting + b.promoting,
           a.pending + b.pending, a.pre + b.pre, a.post + b.post)
  }

  function Minus(a: Totals, b: Totals): Totals {
    Totals(a.strong - b.strong, a.weak - b.weak, a.first - b.first, a.promoting - b.promoting,
           a.pending - b.pending, a.pre - b.pre, a.post - b.post)
  }

  /** What the first n threads contribute together. */
  function TotalOf(ts: seq<Thread>, n: nat): Totals
    requires n <= |ts|
  {
    if n == 0 then Totals(0, 0, 0, 0, 0, 0, 0) else Plus(TotalOf(ts, n - 1), Of(ts[n - 1]))
  }

  function Total(ts: seq<Thread>): Totals {
    TotalOf(ts, |ts|)
  }

  predicate NonNegative(a: Totals) {
    a.strong >= 0 && a.weak >= 0 && a.first >= 0 && a.promoting >= 0 && a.pending >= 0 && a.pre >= 0 && a.post >= 0
  }

  predicate NonPositive(a: Totals) {
    a.strong <= 0 && a.weak <= 0 && a.first <= 0 && a.promoting <= 0 && a.pending <= 0 && a.pre <= 0 && a.post <= 0
  }

  predicate AtLeast(a: Totals, b: Totals) {
    a.strong >= b.strong && a.weak >= b.weak && a.first >= b.first && a.promoting >= b.promoting &&
    a.pending >= b.pending && a.pre >= b.pre && a.post >= b.post
  }

  lemma {:induction false} TotalOfUpdate(ts: seq<Thread>, i: nat, t: Thread, n: nat)
    requires i < |ts| && n <= |ts|
    ensures TotalOf(ts[i := t], n) == if i < n then Plus(Minus(TotalOf(ts, n), Of(ts[i])), Of(t)) else TotalOf(ts, n)
  {
    if n > 0 {
      TotalOfUpdate(ts, i, t, n - 1);
    }
  }

  /** No contribution is negative, and each strong reference brings a weak one. */
  lemma Covered(t: Thread)
    ensures NonNegative(Of(t)) && Of(t).strong + Of(t).pending <= Of(t).weak
  {
  }

  lemma {:induction false} TotalOfBounds(ts: seq<Thread>, n: nat)
    requires n <= |ts|
    ensures NonNegative(TotalOf(ts, n)) && TotalOf(ts, n).strong + TotalOf(ts, n).pending <= TotalOf(ts, n).weak
  {
    if n > 0 {
      TotalOfBounds(ts, n - 1);
      Covered(ts[n - 1]);
    }
  }

  lemma {:induction false} TotalOfCovers(ts: seq<Thread>, n: nat, i: nat)
    requires i < n <= |ts|
    ensures AtLeast(TotalOf(ts, n), Of(ts[i]))
  {
    if i == n - 1 {
      TotalOfBounds(ts, n - 1);
    } else {
      TotalOfCovers(ts, n - 1, i);
      Covered(ts[n - 1]);
    }
  }

  /** Of the first n threads none has a strong reference but in its first incStrong. */
  predicate FirstOnly(ts: seq<Thread>, n: nat)
    requires n <= |ts|
  {
    n == 0 || (Of(ts[n - 1]).strong <= Of(ts[n - 1]).first && FirstOnly(ts, n - 1))
  }

  lemma {:induction false} FirstOnlyIf(ts: seq<Thread>, n: nat)
    requires n <= |ts| && forall k :: 0 <= k < |ts| ==> Of(ts[k]).strong <= Of(ts[k]).first
    ensures FirstOnly(ts, n)
  {
    if n > 0 {
      FirstOnlyIf(ts, n - 1);
    }
  }

  lemma {:induction false} StrongBelowFirst(ts: seq<Thread>, n: nat)
    requires n <= |ts| && FirstOnly(ts, n)
    ensures TotalOf(ts, n).strong <= TotalOf(ts, n).first
  {
    if n > 0 {
      StrongBelowFirst(ts, n - 1);
    }
  }

  lemma {:induction false} StrongBehindFirst(ts: seq<Thread>, n: nat, i: nat)
    requires i < n <= |ts| && FirstOnly(ts, n) && Of(ts[i]).strong < Of(ts[i]).first
    ensures TotalOf(ts, n).strong < TotalOf(ts, n).first
  {
    if i < n - 1 {
      StrongBehindFirst(ts, n - 1, i);
    } else {
      StrongBelowFirst(ts, n - 1);
    }
  }

  /** One thread changes: the total changes by the difference. */
  lemma TotalUpdate(ts: seq<Thread>, i: nat, t: Thread)
    requires i < |ts|
    ensures Total(ts[i := t]) == Plus(Minus(Total(ts), Of(ts[i])), Of(t))
  {
    TotalOfUpdate(ts, i, t, |ts|);
  }

  /** Every total is at least what any one thread contributes. */
  lemma TotalCovers(ts: seq<Thread>, i: nat)
    requires i < |ts|
    ensures AtLeast(Total(ts), Of(ts[i])) && NonNegative(Of(ts[i]))
  {
    TotalOfCovers(ts, |ts|, i);
    Covered(ts[i]);
  }

  lemma TotalBounds(ts: seq<Thread>)
    ensures NonNegative(Total(ts)) && Total(ts).strong + Total(ts).pending <= Total(ts).weak
  {
    TotalOfBounds(ts, |ts|);
  }

  // ---------- the invariant ----------

  predicate Biased(s: State) {
    s.biasRemovals == 0
  }

  predicate PcOk(pc: Pc, holds: nat, strong: nat, extended: bool, biased: bool) {
    match pc
    case IncStrong(first) => !first ==> strong >= 1
    case DeleteObject => !extended && !biased
    case DestructorAfterStrong => !extended && !biased
    case DestructorReadWeak => extended
    case Cas(cur) => 0 < cur && cur != INITIAL_STRONG_VALUE
    case LoadFirst => !extended
    case CasFirst(cur) => 0 < cur && !extended
    case FixCas(cur) => cur >= INITIAL_STRONG_VALUE
    case Revive => extended
    case WeakLoad => holds >= 1
    case WeakCas(cur) => holds >= 1 && cur > 0
    case _ => true
  }

  predicate ThreadOk(t: Thread, extended: bool, biased: bool) {
    (t.strong >= 1 ==> !biased) && PcOk(t.pc, t.strong + t.weak, t.strong, extended, biased)
  }

  predicate CountsOk(s: State, n: Totals) {
    && s.mStrong == n.strong + (if Biased(s) then INITIAL_STRONG_VALUE else 0)
    && s.mWeak == n.weak
    && s.mWeak < INITIAL_STRONG_VALUE
    && s.biasRemovals <= 1
  }

  predicate RouteOk(s: State, n: Totals) {
    && n.first == (if s.route.FirstInc? then 1 else 0)
    && (!s.route.Open? ==> Biased(s) && n.promoting == 0)
    && (s.untouched ==> s.mWeak == 0 && s.route.Undecided?)
  }

  predicate DeletesOk(s: State, n: Totals) {
    && (if s.mWeak == 0 && !s.untouched then n.pre + n.post + s.implDeletes == 1
        else n.pre == 0 && n.post == 0 && s.implDeletes == 0)
    && (if !s.extended && !Biased(s)
        then n.pending + s.objectDeletes == (if s.mStrong == 0 then 1 else 0) && n.post == 0
        else n.pending == 0 && s.objectDeletes == n.post + s.implDeletes)
  }

  predicate Inv(s: State) {
    && (forall k :: 0 <= k < |s.threads| ==> ThreadOk(s.threads[k], s.extended, Biased(s)))
    && CountsOk(s, Total(s.threads)) && RouteOk(s, Total(s.threads)) && DeletesOk(s, Total(s.threads))
  }

  lemma UnusedIsNothing(t: Thread)
    requires Unused(t)
    ensures NonPositive(Of(t))
  {
  }

  lemma {:induction false} TotalOfNothing(ts: seq<Thread>, n: nat)
    requires n <= |ts| && forall k :: 0 <= k < |ts| ==> NonPositive(Of(ts[k]))
    ensures NonPositive(TotalOf(ts, n))
  {
    if n > 0 {
      TotalOfNothing(ts, n - 1);
    }
  }

  lemma UnusedTotal(ts: seq<Thread>)
    requires forall k :: 0 <= k < |ts| ==> Unused(ts[k])
    ensures NonPositive(Total(ts))
  {
    forall k | 0 <= k < |ts| ensures NonPositive(Of(ts[k])) {
      UnusedIsNothing(ts[k]);
    }
    TotalOfNothing(ts, |ts|);
  }

  lemma InitInv(s: State)
    requires Init(s)
    ensures Inv(s)
  {
    UnusedTotal(s.threads);
    TotalBounds(s.threads);
    forall k | 0 <= k < |s.threads| ensures ThreadOk(s.threads[k], s.extended, Biased(s)) {
      assert Unused(s.threads[k]);
    }
  }

  /** A step of one thread keeps the invariant when the counts it leaves fit its new position. */
  lemma StepKeepsInv(s: State, s': State, i: nat)
    requires Inv(s) && i < |s.threads| == |s'.threads| && s'.threads == s.threads[i := s'.threads[i]]
    requires s'.extended == s.extended && (Biased(s') ==> Biased(s))
    requires ThreadOk(s'.threads[i], s'.extended, Biased(s'))
    requires var n := Plus(Minus(Total(s.threads), Of(s.threads[i])), Of(s'.threads[i]));
             CountsOk(s', n) && RouteOk(s', n) && DeletesOk(s', n)
    ensures Inv(s')
  {
    TotalUpdate(s.threads, i, s'.threads[i]);
    forall k | 0 <= k < |s'.threads| ensures ThreadOk(s'.threads[k], s'.extended, Biased(s')) {
      if k != i {
        assert ThreadOk(s.threads[k], s.extended, Biased(s));
      }
    }
  }

  lemma CallKeepsInv(s: State, a: Action)
    requires Inv(s) && Enabled(s, a) && !a.Advance? && !a.GiveStrong? && !a.GiveWeak?
    ensures Inv(Apply(s, a))
  {
    TotalCovers(s.threads, a.i);
    TotalBounds(s.threads);
    assert ThreadOk(s.threads[a.i], s.extended, Biased(s));
    StepKeepsInv(s, Apply(s, a), a.i);
  }

  /** Two pairs of contributions come to the same. */
  predicate SameSum(a: Totals, b: Totals, c: Totals, d: Totals) {
    && a.strong + b.strong == c.strong + d.strong && a.weak + b.weak == c.weak + d.weak
    && a.first + b.first == c.first + d.first && a.promoting + b.promoting == c.promoting + d.promoting
    && a.pending + b.pending == c.pending + d.pending && a.pre + b.pre == c.pre + d.pre && a.post + b.post == c.post + d.post
  }

  lemma GiveKeepsTotal(ts: seq<Thread>, i: nat, j: nat, t: Thread, u: Thread)
    requires i < |ts| && j < |ts| && i != j && SameSum(Of(t), Of(u), Of(ts[i]), Of(ts[j]))
    ensures Total(ts[i := t][j := u]) == Total(ts)
  {
    TotalUpdate(ts, i, t);
    TotalUpdate(ts[i := t], j, u);
  }

  /** b is a with so many more references, or fewer. */
  predicate ShiftedBy(a: Totals, b: Totals, strong: int, weak: int) {
    && b.strong == a.strong + strong && b.weak == a.weak + strong + weak && b.first == a.first
    && b.promoting == a.promoting && b.pending == a.pending && b.pre == a.pre && b.post == a.post
  }

  /** What a thread holds adds to its contribution and changes nothing else of it. */
  lemma HeldIsAdded(t: Thread, t': Thread)
    requires t'.pc == t.pc
    ensures ShiftedBy(Of(t), Of(t'), t'.strong - t.strong, t'.weak - t.weak)
  {
  }

  /** What one thread gives the other gets: the total stays. */
  lemma PassedOn(ts: seq<Thread>, i: nat, j: nat, t: Thread, u: Thread)
    requires i < |ts| && j < |ts| && i != j && t.pc == ts[i].pc && u.pc == ts[j].pc
    requires t.strong + u.strong == ts[i].strong + ts[j].strong && t.weak + u.weak == ts[i].weak + ts[j].weak
    ensures Total(ts[i := t][j := u]) == Total(ts)
  {
    HeldIsAdded(ts[i], t);
    HeldIsAdded(ts[j], u);
    GiveKeepsTotal(ts, i, j, t, u);
  }

  /** A reference that changes hands, between threads that may hold it, keeps the invariant. */
  lemma HandOver(s: State, i: nat, j: nat, t: Thread, u: Thread)
    requires Inv(s) && i < |s.threads| && j < |s.threads| && i != j
    requires ThreadOk(t, s.extended, Biased(s)) && ThreadOk(u, s.extended, Biased(s))
    requires Total(s.threads[i := t][j := u]) == Total(s.threads)
    ensures Inv(s.(threads := s.threads[i := t][j := u]))
  {
    var ts := s.threads[i := t][j := u];
    forall k | 0 <= k < |ts| ensures ThreadOk(ts[k], s.extended, Biased(s)) {
      if k != i && k != j {
        assert ThreadOk(s.threads[k], s.extended, Biased(s));
      }
    }
  }

  lemma MayHold(s: State, a: Action, t: Thread, u: Thread)
    requires Inv(s) && Enabled(s, a) && (a.GiveStrong? || a.GiveWeak?)
    requires t.pc == s.threads[a.i].pc && t.strong <= s.threads[a.i].strong
    requires var v := s.threads[a.j]; u.pc == v.pc && v.strong <= u.strong && v.weak <= u.weak && (a.GiveWeak? ==> u.strong == v.strong)
    ensures ThreadOk(t, s.extended, Biased(s)) && ThreadOk(u, s.extended, Biased(s))
  {
    assert ThreadOk(s.threads[a.i], s.extended, Biased(s)) && ThreadOk(s.threads[a.j], s.extended, Biased(s));
  }

  lemma GiveStrongKeepsInv(s: State, a: Action)
    requires Inv(s) && Enabled(s, a) && a.GiveStrong?
    ensures Inv(Apply(s, a))
  {
    var t, u := s.threads[a.i], s.threads[a.j];
    var t', u' := t.(strong := t.strong - 1), u.(strong := u.strong + 1);
    MayHold(s, a, t', u');
    PassedOn(s.threads, a.i, a.j, t', u');
    HandOver(s, a.i, a.j, t', u');
  }

  lemma GiveWeakKeepsInv(s: State, a: Action)
    requires Inv(s) && Enabled(s, a) && a.GiveWeak?
    ensures Inv(Apply(s, a))
  {
    var t, u := s.threads[a.i], s.threads[a.j];
    var t', u' := t.(weak := t.weak - 1), u.(weak := u.weak + 1);
    MayHold(s, a, t', u');
    PassedOn(s.threads, a.i, a.j, t', u');
    HandOver(s, a.i, a.j, t', u');
  }

  /** Until the route is open, only SubtractBias has raised mStrong. */
  lemma WhileBiased(s: State, k: nat)
    requires Inv(s) && k < |s.threads| && !s.route.Open?
    ensures Of(s.threads[k]).strong <= Of(s.threads[k]).first
  {
    TotalCovers(s.threads, k);
    assert ThreadOk(s.threads[k], s.extended, Biased(s));
  }

  /** The first incStrong sees exactly the bias. */
  lemma FirstSeesTheBias(s: State, i: nat)
    requires Inv(s) && i < |s.threads| && s.threads[i].pc == IncStrong(true)
    ensures s.mStrong == INITIAL_STRONG_VALUE && s.route.FirstInc?
  {
    TotalCovers(s.threads, i);
    TotalBounds(s.threads);
    forall k | 0 <= k < |s.threads| ensures Of(s.threads[k]).strong <= Of(s.threads[k]).first {
      WhileBiased(s, k);
    }
    FirstOnlyIf(s.threads, |s.threads|);
    StrongBehindFirst(s.threads, |s.threads|, i);
    assert ThreadOk(s.threads[i], s.extended, Biased(s));
  }

  lemma IncStrongKeepsInv(s: State, i: nat)
    requires Inv(s) && i < |s.threads| && (s.threads[i].pc.IncStrong? || s.threads[i].pc.SubtractBias?)
    ensures Inv(AdvanceStep(s, i, true))
  {
    TotalCovers(s.threads, i);
    TotalBounds(s.threads);
    assert ThreadOk(s.threads[i], s.extended, Biased(s));
    if s.threads[i].pc == IncStrong(true) {
      FirstSeesTheBias(s, i);
    }
    StepKeepsInv(s, AdvanceStep(s, i, true), i);
  }

  predicate Releasing(pc: Pc) {
    pc.DeleteObject? || pc.DestructorAfterStrong? || pc.DecWeak? || pc.LastWeak? ||
    pc.DestructorAfterWeak? || pc.DestructorReadWeak?
  }

  lemma ReleaseKeepsInv(s: State, i: nat)
    requires Inv(s) && i < |s.threads| && Releasing(s.threads[i].pc)
    ensures Inv(AdvanceStep(s, i, true))
  {
    TotalCovers(s.threads, i);
    TotalBounds(s.threads);
    assert ThreadOk(s.threads[i], s.extended, Biased(s));
    StepKeepsInv(s, AdvanceStep(s, i, true), i);
  }

  lemma StrongFixKeepsInv(s: State, i: nat)
    requires Inv(s) && Enabled(s, Advance(i, true)) && (s.threads[i].pc.FixLoad? || s.threads[i].pc.FixCas?)
    ensures Inv(AdvanceStep(s, i, true))
  {
    TotalCovers(s.threads, i);
    TotalBounds(s.threads);
    assert ThreadOk(s.threads[i], s.extended, Biased(s));
    StepKeepsInv(s, AdvanceStep(s, i, true), i);
  }

  lemma WeakCasKeepsInv(s: State, i: nat)
    requires Inv(s) && Enabled(s, Advance(i, true)) && (s.threads[i].pc.WeakLoad? || s.threads[i].pc.WeakCas?)
    ensures Inv(AdvanceStep(s, i, true))
  {
    TotalCovers(s.threads, i);
    TotalBounds(s.threads);
    assert ThreadOk(s.threads[i], s.extended, Biased(s));
    StepKeepsInv(s, AdvanceStep(s, i, true), i);
  }

  lemma LoadKeepsInv(s: State, i: nat, agrees: bool)
    requires Inv(s) && i < |s.threads| && (s.threads[i].pc.Load? || s.threads[i].pc.LoadFirst?)
    ensures Inv(AdvanceStep(s, i, agrees))
  {
    TotalCovers(s.threads, i);
    TotalBounds(s.threads);
    assert ThreadOk(s.threads[i], s.extended, Biased(s));
    StepKeepsInv(s, AdvanceStep(s, i, agrees), i);
  }

  lemma CasKeepsInv(s: State, i: nat)
    requires Inv(s) && i < |s.threads|
    requires s.threads[i].pc.Cas? || s.threads[i].pc.CasFirst? || s.threads[i].pc.Revive?
    ensures Inv(AdvanceStep(s, i, true))
  {
    TotalCovers(s.threads, i);
    TotalBounds(s.threads);
    assert ThreadOk(s.threads[i], s.extended, Biased(s));
    StepKeepsInv(s, AdvanceStep(s, i, true), i);
  }

  lemma AdvanceKeepsInv(s: State, i: nat, agrees: bool)
    requires Inv(s) && Enabled(s, Advance(i, agrees))
    ensures Inv(AdvanceStep(s, i, agrees))
  {
    var pc := s.threads[i].pc;
    if pc.IncStrong? || pc.SubtractBias? {
      IncStrongKeepsInv(s, i);
    } else if Releasing(pc) {
      ReleaseKeepsInv(s, i);
    } else if pc.FixLoad? || pc.FixCas? {
      StrongFixKeepsInv(s, i);
    } else if pc.WeakLoad? || pc.WeakCas? {
      WeakCasKeepsInv(s, i);
    } else if pc.Load? || pc.LoadFirst? {
      LoadKeepsInv(s, i, agrees);
    } else {
      CasKeepsInv(s, i);
    }
  }

  // ---------- whole runs ----------

  /** A run from a new object: s[0], a[0], s[1], a[1], ..., s[|a|]. */
  predicate Run(ss: seq<State>, acts: seq<Action>) {
    && |ss| == |acts| + 1 && Init(ss[0])
    && forall k :: 0 <= k < |acts| ==> Enabled(ss[k], acts[k]) && ss[k + 1] == Apply(ss[k], acts[k])
  }

  lemma ApplyKeepsInv(s: State, a: Action)
    requires Inv(s) && Enabled(s, a)
    ensures Inv(Apply(s, a))
  {
    match a
    case Advance(i, agrees) => AdvanceKeepsInv(s, i, agrees);
    case GiveStrong(_, _) => GiveStrongKeepsInv(s, a);
    case GiveWeak(_, _) => GiveWeakKeepsInv(s, a);
    case _ => CallKeepsInv(s, a);
  }

  lemma {:induction false} RunKeepsInv(ss: seq<State>, acts: seq<Action>, k: nat)
    requires Run(ss, acts) && k < |ss|
    ensures Inv(ss[k])
  {
    if k == 0 {
      InitInv(ss[0]);
    } else {
      RunKeepsInv(ss, acts, k - 1);
      ApplyKeepsInv(ss[k - 1], acts[k - 1]);
    }
  }

  /** A strong reference that is held by a thread or being handed to it. */
  predicate HasStrong(t: Thread) {
    Of(t).strong >= 1
  }

  /** A thread that still reads or writes weakref_impl, now or through a reference it holds. */
  predicate MayTouchImpl(t: Thread) {
    !Unused(t)
  }

  /**
    In every interleaving nothing is deleted twice, an object of the strong lifetime is
    never deleted while somebody has a strong reference, an object of the extended lifetime
    never while somebody has any reference, and weakref_impl never while a thread holds a
    reference or is inside a call.
   */
  lemma NoDoubleDeleteNoUseAfterFree(ss: seq<State>, acts: seq<Action>, k: nat)
    requires Run(ss, acts) && k < |ss|
    ensures var s := ss[k];
            && s.objectDeletes <= 1 && s.implDeletes <= 1 && s.biasRemovals <= 1
            && (s.implDeletes == 1 ==> s.objectDeletes == 1)
            && (s.objectDeletes == 1 ==> forall j :: 0 <= j < |s.threads| ==> !HasStrong(s.threads[j]))
            && (s.objectDeletes == 1 && s.extended ==> forall j :: 0 <= j < |s.threads| ==> !HoldsAny(s.threads[j]))
            && (s.implDeletes == 1 ==> forall j :: 0 <= j < |s.threads| ==> !MayTouchImpl(s.threads[j]))
  {
    RunKeepsInv(ss, acts, k);
    TotalBounds(ss[k].threads);
    forall j | 0 <= j < |ss[k].threads|
      ensures ss[k].objectDeletes == 1 ==> !HasStrong(ss[k].threads[j])
      ensures ss[k].objectDeletes == 1 && ss[k].extended ==> !HoldsAny(ss[k].threads[j])
      ensures ss[k].implDeletes == 1 ==> !MayTouchImpl(ss[k].threads[j])
    {
      DeletedBehind(ss[k], j);
    }
  }

  lemma DeletedBehind(s: State, j: nat)
    requires Inv(s) && j < |s.threads|
    ensures s.objectDeletes == 1 ==> !HasStrong(s.threads[j])
    ensures s.objectDeletes == 1 && s.extended ==> !HoldsAny(s.threads[j])
    ensures s.implDeletes == 1 ==> !MayTouchImpl(s.threads[j])
  {
    TotalBounds(s.threads);
    TotalCovers(s.threads, j);
    assert ThreadOk(s.threads[j], s.extended, Biased(s));
  }

  /** No call is in flight. */
  predicate Quiescent(s: State) {
    forall k :: 0 <= k < |s.threads| ==> s.threads[k].pc.Idle?
  }

  /** The references that the first n threads hold. */
  function StrongAmong(ts: seq<Thread>, n: nat): nat
    requires n <= |ts|
  {
    if n == 0 then 0 else StrongAmong(ts, n - 1) + ts[n - 1].strong
  }

  function WeakAmong(ts: seq<Thread>, n: nat): nat
    requires n <= |ts|
  {
    if n == 0 then 0 else WeakAmong(ts, n - 1) + ts[n - 1].weak
  }

  function StrongHeld(ts: seq<Thread>): nat {
    StrongAmong(ts, |ts|)
  }

  function WeakHeld(ts: seq<Thread>): nat {
    WeakAmong(ts, |ts|)
  }

  lemma {:induction false} QuiescentTotal(ts: seq<Thread>, n: nat)
    requires n <= |ts| && forall k :: 0 <= k < |ts| ==> ts[k].pc.Idle?
    ensures var c := TotalOf(ts, n);
            && c.strong == StrongAmong(ts, n) && c.weak == StrongAmong(ts, n) + WeakAmong(ts, n)
            && c.pending == 0 && c.pre == 0 && c.post == 0
  {
    if n > 0 {
      QuiescentTotal(ts, n - 1);
    }
  }

  /**
    Once no call is in flight the counts are the references that exist, with the bias
    exactly while there never was a strong one, and when the last reference is gone the
    object and weakref_impl have each been deleted exactly once.
   */
  lemma QuiescentCounts(ss: seq<State>, acts: seq<Action>, k: nat)
    requires Run(ss, acts) && k < |ss| && Quiescent(ss[k])
    ensures var s := ss[k];
            && s.mStrong == StrongHeld(s.threads) + (if s.biasRemovals == 0 then INITIAL_STRONG_VALUE else 0)
            && s.mWeak == StrongHeld(s.threads) + WeakHeld(s.threads)
            && (StrongHeld(s.threads) > 0 ==> s.biasRemovals == 1)
            && (!s.extended && s.biasRemovals == 1 ==> (s.objectDeletes == 1 <==> StrongHeld(s.threads) == 0))
            && (!s.untouched && StrongHeld(s.threads) + WeakHeld(s.threads) == 0 ==>
                  s.objectDeletes == 1 && s.implDeletes == 1)
            && (StrongHeld(s.threads) + WeakHeld(s.threads) > 0 ==> s.implDeletes == 0)
  {
    RunKeepsInv(ss, acts, k);
    var s := ss[k];
    QuiescentTotal(s.threads, |s.threads|);
    if StrongHeld(s.threads) > 0 {
      SomeStrong(s.threads, |s.threads|);
    }
  }

  lemma {:induction false} SomeStrong(ts: seq<Thread>, n: nat)
    requires n <= |ts| && StrongAmong(ts, n) > 0
    ensures exists k :: 0 <= k < |ts| && ts[k].strong >= 1
  {
    if ts[n - 1].strong == 0 {
      SomeStrong(ts, n - 1);
    }
  }

  lemma ZeroStep(s: State, a: Action)
    requires Inv(s) && Enabled(s, a) && !s.extended && s.mStrong == 0
    ensures Apply(s, a).mStrong == 0 && Apply(s, a).promotions == s.promotions
  {
    TotalCovers(s.threads, a.i);
    TotalBounds(s.threads);
    assert ThreadOk(s.threads[a.i], s.extended, Biased(s));
    if s.threads[a.i].pc == IncStrong(true) {
      FirstSeesTheBias(s, a.i);
    }
  }

  lemma ZeroStepOfRun(ss: seq<State>, acts: seq<Action>, k: nat)
    requires Run(ss, acts) && k + 1 < |ss| && !ss[k].extended && ss[k].mStrong == 0
    ensures ss[k + 1].mStrong == 0 && ss[k + 1].promotions == ss[k].promotions && !ss[k + 1].extended
  {
    RunKeepsInv(ss, acts, k);
    ZeroStep(ss[k], acts[k]);
  }

  /** Strong lifetime: once mStrong is 0 it stays 0 and no promotion succeeds any more. */
  lemma {:induction false} ZeroIsFinal(ss: seq<State>, acts: seq<Action>, k: nat, m: nat)
    requires Run(ss, acts) && k <= m < |ss| && !ss[k].extended && ss[k].mStrong == 0
    ensures ss[m].mStrong == 0 && ss[m].promotions == ss[k].promotions && !ss[m].extended
    decreases m
  {
    if k < m {
      ZeroIsFinal(ss, acts, k, m - 1);
      ZeroStepOfRun(ss, acts, m - 1);
    }
  }

  // ---------- what a call does for its caller ----------

  /** What a thread inside a call will have gained when it returns, or that this is still open. */
  datatype Verdict = Waiting | Due(strong: nat, weak: nat)

  function VerdictOf(pc: Pc): Verdict {
    match pc
    case IncStrong(_) => Due(1, 0)
    case SubtractBias => Due(1, 0)
    case FixLoad => Due(1, 0)
    case FixCas(_) => Due(1, 0)
    case WeakLoad => Due(0, 1)
    case WeakCas(_) => Due(0, 1)
    case Load => Waiting
    case Cas(_) => Waiting
    case LoadFirst => Waiting
    case CasFirst(_) => Waiting
    case Revive => Waiting
    case _ => Due(0, 0)
  }

  /**
    Thread i reads mStrong for its promotion and may not have the object: in the strong lifetime because
    the last strong reference is gone, in the extended one because there is none and
    onIncStrongAttempted does not agree.
   */
  predicate Refused(s: State, a: Action, i: nat) {
    && a.Advance? && a.i == i < |s.threads| && (s.threads[i].pc.Load? || s.threads[i].pc.LoadFirst?)
    && if s.extended then (s.mStrong <= 0 || s.mStrong == INITIAL_STRONG_VALUE) && !a.agrees else s.mStrong <= 0
  }

  predicate IsCall(a: Action) {
    !a.Advance? && !a.GiveStrong? && !a.GiveWeak?
  }

  /** What a call changes of its caller's references; for attemptIncStrong, if it succeeds. */
  function Effect(a: Action): (int, int) {
    match a
    case CallIncStrong(_) => (1, 0)
    case CallAttemptIncStrong(_) => (1, 0)
    case CallDecStrong(_) => (-1, 0)
    case CallIncWeak(_) => (0, 1)
    case CallAttemptIncWeak(_) => (0, 1)
    case CallDecWeak(_) => (0, -1)
    case _ => (0, 0)
  }

  function StrongGift(a: Action, i: nat): nat {
    if a.GiveStrong? && a.j == i then 1 else 0
  }

  function WeakGift(a: Action, i: nat): nat {
    if a.GiveWeak? && a.j == i then 1 else 0
  }

  /** The references that others hand to thread i by actions j to k. */
  function StrongGifts(acts: seq<Action>, i: nat, j: nat, k: nat): nat
    requires j <= k <= |acts|
  {
    if j == k then 0 else StrongGifts(acts, i, j, k - 1) + StrongGift(acts[k - 1], i)
  }

  function WeakGifts(acts: seq<Action>, i: nat, j: nat, k: nat): nat
    requires j <= k <= |acts|
  {
    if j == k then 0 else WeakGifts(acts, i, j, k - 1) + WeakGift(acts[k - 1], i)
  }

  /** Nobody else moves a thread, or changes what it holds but by a gift. */
  lemma OthersOnlyGive(s: State, a: Action, i: nat)
    requires Enabled(s, a) && i < |s.threads| && a.i != i
    ensures var s' := Apply(s, a); |s'.threads| == |s.threads|
    ensures var t, t' := s.threads[i], Apply(s, a).threads[i];
            t' == Thread(t.strong + StrongGift(a, i), t.weak + WeakGift(a, i), t.pc)
  {
    if a.Advance? {
      AdvanceMovesOne(s, a.i, a.agrees);
    }
  }

  lemma AdvanceMovesOne(s: State, i: nat, agrees: bool)
    requires i < |s.threads| && !s.threads[i].pc.Idle?
    ensures var s' := AdvanceStep(s, i, agrees); s'.threads == s.threads[i := s'.threads[i]] && s'.extended == s.extended
  {
    match s.threads[i].pc
    case IncStrong(_) =>
    case Load =>
    case FixCas(_) =>
    case WeakCas(_) =>
    case _ =>
  }

  /** One step of a call: a verdict stays, and it is reached by refusal or by taking the reference. */
  ghost predicate KeepsVerdict(t: Thread, t': Thread, refused: bool) {
    match VerdictOf(t.pc)
    case Due(a, b) =>
      var v := VerdictOf(t'.pc);
      v.Due? && t'.strong + v.strong == t.strong + a && t'.weak + v.weak == t.weak + b
    case Waiting =>
      t'.strong == t.strong && t'.weak == t.weak && !t'.pc.Idle? &&
      VerdictOf(t'.pc) in (if refused then {Due(0, 0)} else {Waiting, Due(1, 0)})
  }

  lemma OwnStep(s: State, i: nat, agrees: bool)
    requires Inv(s) && Enabled(s, Advance(i, agrees))
    ensures var s' := AdvanceStep(s, i, agrees);
            |s'.threads| == |s.threads| && KeepsVerdict(s.threads[i], s'.threads[i], Refused(s, Advance(i, agrees), i))
  {
    AdvanceMovesOne(s, i, agrees);
    if VerdictOf(s.threads[i].pc).Waiting? {
      PromotionStep(s, i, agrees);
    } else {
      StepKeepsVerdict(s, i, agrees);
    }
  }

  lemma PromotionStep(s: State, i: nat, agrees: bool)
    requires Inv(s) && Enabled(s, Advance(i, agrees)) && VerdictOf(s.threads[i].pc).Waiting?
    ensures KeepsVerdict(s.threads[i], AdvanceStep(s, i, agrees).threads[i], Refused(s, Advance(i, agrees), i))
  {
    assert ThreadOk(s.threads[i], s.extended, Biased(s));
  }

  lemma StepKeepsVerdict(s: State, i: nat, agrees: bool)
    requires Inv(s) && Enabled(s, Advance(i, agrees)) && VerdictOf(s.threads[i].pc).Due?
    ensures forall refused :: KeepsVerdict(s.threads[i], AdvanceStep(s, i, agrees).threads[i], refused)
  {
    assert ThreadOk(s.threads[i], s.extended, Biased(s));
    TotalCovers(s.threads, i);
  }

  /** The first step of a call. */
  lemma CallStep(s: State, a: Action)
    requires Inv(s) && Enabled(s, a) && IsCall(a)
    ensures var t, s' := s.threads[a.i], Apply(s, a);
            |s'.threads| == |s.threads| && Booked(t, a, s'.threads[a.i], 0, 0, false)
  {
    assert ThreadOk(s.threads[a.i], s.extended, Biased(s));
    TotalCovers(s.threads, a.i);
  }

  /** Action j is a call of thread i that has not returned before state k. */
  predicate Calls(ss: seq<State>, acts: seq<Action>, j: nat, k: nat, i: nat) {
    && j < k < |ss| && j < |acts| && IsCall(acts[j]) && acts[j].i == i
    && (forall m :: j < m < k ==> i < |ss[m].threads| && !ss[m].threads[i].pc.Idle?)
  }

  ghost predicate EverRefused(ss: seq<State>, acts: seq<Action>, i: nat, j: nat, k: nat) {
    exists m :: j < m < k && m < |ss| && m < |acts| && Refused(ss[m], acts[m], i)
  }

  /** What the books say of a thread t' inside its call a, which it began as t, after so many gifts. */
  ghost predicate Booked(t: Thread, a: Action, t': Thread, strongGifts: nat, weakGifts: nat, refused: bool) {
    match VerdictOf(t'.pc)
    case Waiting =>
      a.CallAttemptIncStrong? && !refused && t'.strong == t.strong + strongGifts && t'.weak == t.weak + weakGifts
    case Due(x, y) =>
      && t'.strong + x == t.strong + strongGifts + (if refused then 0 else Effect(a).0)
      && t'.weak + y == t.weak + weakGifts + Effect(a).1
      && (refused ==> a.CallAttemptIncStrong?)
  }

  /** An action a as thread i sees it: a step of its call, or at most a gift. */
  ghost predicate ThreadStep(t: Thread, t': Thread, a: Action, i: nat, refused: bool) {
    if a.i == i then KeepsVerdict(t, t', refused) && StrongGift(a, i) == 0 && WeakGift(a, i) == 0
    else t' == Thread(t.strong + StrongGift(a, i), t.weak + WeakGift(a, i), t.pc) && !refused
  }

  /** Action m of a run as thread i sees it. */
  ghost predicate Sees(ss: seq<State>, acts: seq<Action>, i: nat, m: nat) {
    && m < |acts| && m + 1 < |ss| && i < |ss[m].threads| && i < |ss[m + 1].threads|
    && ThreadStep(ss[m].threads[i], ss[m + 1].threads[i], acts[m], i, Refused(ss[m], acts[m], i))
  }

  lemma StepIsSeen(ss: seq<State>, acts: seq<Action>, m: nat, i: nat)
    requires Run(ss, acts) && m < |acts| && i < |ss[m].threads| && !ss[m].threads[i].pc.Idle?
    ensures Sees(ss, acts, i, m)
  {
    RunKeepsInv(ss, acts, m);
    if acts[m].i == i {
      OwnStep(ss[m], i, acts[m].agrees);
    } else {
      OthersOnlyGive(ss[m], acts[m], i);
    }
  }

  lemma CallIsBooked(ss: seq<State>, acts: seq<Action>, j: nat, i: nat)
    requires Run(ss, acts) && j < |acts| && IsCall(acts[j]) && acts[j].i == i
    ensures i < |ss[j].threads| && i < |ss[j + 1].threads|
    ensures Booked(ss[j].threads[i], acts[j], ss[j + 1].threads[i], 0, 0, false)
  {
    RunKeepsInv(ss, acts, j);
    CallStep(ss[j], acts[j]);
  }

  lemma AllSeen(ss: seq<State>, acts: seq<Action>, j: nat, k: nat, i: nat)
    requires Run(ss, acts) && Calls(ss, acts, j, k, i)
    ensures forall m :: j < m < k ==> Sees(ss, acts, i, m)
  {
    forall m | j < m < k ensures Sees(ss, acts, i, m) {
      StepIsSeen(ss, acts, m, i);
    }
  }

  /** One more action in the books. */
  lemma BookedStep(t: Thread, call: Action, now: Thread, now': Thread, a: Action, i: nat,
                   strongGifts: nat, weakGifts: nat, before: bool, refused: bool)
    requires Booked(t, call, now, strongGifts, weakGifts, before) && ThreadStep(now, now', a, i, refused)
    requires refused ==> VerdictOf(now.pc).Waiting?
    ensures Booked(t, call, now', strongGifts + StrongGift(a, i), weakGifts + WeakGift(a, i), before || refused)
  {
  }

  lemma {:induction false} InCall(ss: seq<State>, acts: seq<Action>, i: nat, j: nat, k: nat)
    requires j < k < |ss| && k <= |acts| && IsCall(acts[j]) && forall m :: j < m < k ==> Sees(ss, acts, i, m)
    requires i < |ss[j].threads| && i < |ss[j + 1].threads|
    requires Booked(ss[j].threads[i], acts[j], ss[j + 1].threads[i], 0, 0, false)
    ensures i < |ss[k].threads|
    ensures Booked(ss[j].threads[i], acts[j], ss[k].threads[i],
                   StrongGifts(acts, i, j, k), WeakGifts(acts, i, j, k), EverRefused(ss, acts, i, j, k))
    decreases k
  {
    GiftsStep(acts, i, j, k);
    RefusedStep(ss, acts, i, j, k);
    if k > j + 1 {
      InCall(ss, acts, i, j, k - 1);
      assert Sees(ss, acts, i, k - 1);
      BookedStep(ss[j].threads[i], acts[j], ss[k - 1].threads[i], ss[k].threads[i], acts[k - 1], i,
                 StrongGifts(acts, i, j, k - 1), WeakGifts(acts, i, j, k - 1),
                 EverRefused(ss, acts, i, j, k - 1), Refused(ss[k - 1], acts[k - 1], i));
    }
  }

  /** The whole of a call that has returned. */
  lemma Returned(ss: seq<State>, acts: seq<Action>, j: nat, k: nat, i: nat)
    requires Run(ss, acts) && Calls(ss, acts, j, k, i)
    ensures i < |ss[j].threads| && i < |ss[k].threads|
    ensures Booked(ss[j].threads[i], acts[j], ss[k].threads[i],
                   StrongGifts(acts, i, j, k), WeakGifts(acts, i, j, k), EverRefused(ss, acts, i, j, k))
  {
    CallIsBooked(ss, acts, j, i);
    AllSeen(ss, acts, j, k, i);
    InCall(ss, acts, i, j, k);
  }

  lemma GiftsStep(acts: seq<Action>, i: nat, j: nat, k: nat)
    requires j < k <= |acts|
    ensures StrongGifts(acts, i, j, k) == StrongGifts(acts, i, j, k - 1) + StrongGift(acts[k - 1], i)
    ensures WeakGifts(acts, i, j, k) == WeakGifts(acts, i, j, k - 1) + WeakGift(acts[k - 1], i)
    ensures StrongGifts(acts, i, j, j) == 0 && WeakGifts(acts, i, j, j) == 0
  {
  }

  lemma RefusedStep(ss: seq<State>, acts: seq<Action>, i: nat, j: nat, k: nat)
    requires j < k < |ss| && k <= |acts|
    ensures k == j + 1 ==> !EverRefused(ss, acts, i, j, k)
    ensures k > j + 1 ==>
              (EverRefused(ss, acts, i, j, k) <==> EverRefused(ss, acts, i, j, k - 1) || Refused(ss[k - 1], acts[k - 1], i))
  {
  }

  /** The references of thread i grew by so many between states j and k, not counting gifts. */
  ghost predicate Gained(ss: seq<State>, acts: seq<Action>, i: nat, j: nat, k: nat, strong: int, weak: int)
    requires j <= k < |ss| && k <= |acts|
  {
    && i < |ss[j].threads| && i < |ss[k].threads|
    && ss[k].threads[i].strong == ss[j].threads[i].strong + StrongGifts(acts, i, j, k) + strong
    && ss[k].threads[i].weak == ss[j].threads[i].weak + WeakGifts(acts, i, j, k) + weak
  }

  /**
    In every interleaving incStrong and incWeak that have returned have given their caller exactly one
    reference of their kind, decStrong and decWeak have taken exactly one, and attemptIncWeak, called with
    a reference, has always succeeded.
   */
  lemma CallsCount(ss: seq<State>, acts: seq<Action>, j: nat, k: nat, i: nat)
    requires Run(ss, acts) && Calls(ss, acts, j, k, i) && i < |ss[k].threads| && ss[k].threads[i].pc.Idle?
    requires !acts[j].CallAttemptIncStrong?
    ensures Gained(ss, acts, i, j, k, Effect(acts[j]).0, Effect(acts[j]).1)
  {
    Returned(ss, acts, j, k, i);
  }

  /**
    In every interleaving attemptIncStrong gives its caller a strong reference if and only if no reading of
    mStrong refused it.
   */
  lemma PromotionIsRefusedOrGiven(ss: seq<State>, acts: seq<Action>, j: nat, k: nat, i: nat)
    requires Run(ss, acts) && Calls(ss, acts, j, k, i) && i < |ss[k].threads| && ss[k].threads[i].pc.Idle?
    requires acts[j].CallAttemptIncStrong?
    ensures Gained(ss, acts, i, j, k, if EverRefused(ss, acts, i, j, k) then 0 else 1, 0)
  {
    Returned(ss, acts, j, k, i);
  }

  ghost predicate SameLifetime(ss: seq<State>, k: nat) {
    k + 1 < |ss| && ss[k + 1].extended == ss[k].extended
  }

  lemma {:induction false} LifetimeStays(ss: seq<State>, j: nat, k: nat)
    requires j <= k < |ss| && forall m :: 0 <= m < |ss| - 1 ==> SameLifetime(ss, m)
    ensures ss[k].extended == ss[j].extended
    decreases k
  {
    if j < k {
      LifetimeStays(ss, j, k - 1);
      assert SameLifetime(ss, k - 1);
    }
  }

  lemma LifetimeOfRun(ss: seq<State>, acts: seq<Action>)
    requires Run(ss, acts)
    ensures forall m :: 0 <= m < |ss| - 1 ==> SameLifetime(ss, m)
  {
    forall m | 0 <= m < |ss| - 1 ensures SameLifetime(ss, m) {
      LifetimeStep(ss, acts, m);
    }
  }

  lemma LifetimeStep(ss: seq<State>, acts: seq<Action>, k: nat)
    requires Run(ss, acts) && k < |acts|
    ensures SameLifetime(ss, k)
  {
    if acts[k].Advance? {
      AdvanceMovesOne(ss[k], acts[k].i, acts[k].agrees);
    }
  }

  lemma StrongIsCounted(s: State, i: nat)
    requires Inv(s) && i < |s.threads|
    ensures s.mStrong >= s.threads[i].strong >= 0
  {
    TotalCovers(s.threads, i);
  }

  /**
    In every interleaving of the strong lifetime attemptIncStrong succeeds if and only if mStrong is not 0
    when it returns: it never gives up an object that has a strong reference, or never had one.
   */
  lemma PromotionSucceedsWhileAlive(ss: seq<State>, acts: seq<Action>, j: nat, k: nat, i: nat)
    requires Run(ss, acts) && Calls(ss, acts, j, k, i) && i < |ss[k].threads| && ss[k].threads[i].pc.Idle?
    requires acts[j].CallAttemptIncStrong? && !ss[j].extended
    ensures Gained(ss, acts, i, j, k, if ss[k].mStrong > 0 then 1 else 0, 0)
  {
    PromotionIsRefusedOrGiven(ss, acts, j, k, i);
    RunKeepsInv(ss, acts, k);
    StrongIsCounted(ss[k], i);
    if EverRefused(ss, acts, i, j, k) {
      var m :| j < m < k && m < |ss| && m < |acts| && Refused(ss[m], acts[m], i);
      LifetimeOfRun(ss, acts);
      LifetimeStays(ss, j, m);
      RunKeepsInv(ss, acts, m);
      StrongIsCounted(ss[m], i);
      ZeroIsFinal(ss, acts, m, k);
    }
  }

  /**
    In every interleaving of the extended lifetime attemptIncStrong fails only if onIncStrongAttempted did
    not agree at a moment without a strong reference.
   */
  lemma ExtendedPromotionFailsOnlyIfRefused(ss: seq<State>, acts: seq<Action>, j: nat, k: nat, i: nat)
    requires Run(ss, acts) && Calls(ss, acts, j, k, i) && i < |ss[k].threads| && ss[k].threads[i].pc.Idle?
    requires acts[j].CallAttemptIncStrong? && ss[j].extended && !Gained(ss, acts, i, j, k, 1, 0)
    ensures Gained(ss, acts, i, j, k, 0, 0)
    ensures exists m :: j < m < k && acts[m] == Advance(i, false) && (ss[m].mStrong <= 0 || ss[m].mStrong == INITIAL_STRONG_VALUE)
  {
    PromotionIsRefusedOrGiven(ss, acts, j, k, i);
    var m :| j < m < k && m < |ss| && m < |acts| && Refused(ss[m], acts[m], i);
    LifetimeOfRun(ss, acts);
    LifetimeStays(ss, j, m);
  }

  // ---------- progress ----------

  /** The steps that a thread needs at most to return if nobody else steps in. */
  function StepsLeft(pc: Pc, mStrong: int, mWeak: int): nat {
    match pc
    case Idle => 0
    case SubtractBias => 1
    case IncStrong(_) => 2
    case DestructorReadWeak => 1
    case DestructorAfterWeak => 2
    case LastWeak => 3
    case DecWeak => 4
    case DestructorAfterStrong => 5
    case DeleteObject => 6
    case FixCas(cur) => if mStrong == cur then 1 else 3
    case FixLoad => 2
    case Revive => 3
    case Cas(cur) => if mStrong == cur then 3 else 6
    case Load => 5
    case CasFirst(cur) => if mStrong == cur then 3 else 6
    case LoadFirst => 5
    case WeakCas(cur) => if mWeak == cur then 1 else 3
    case WeakLoad => 2
  }

  predicate FewerSteps(s: State, s': State, i: nat) {
    && i < |s.threads| && i < |s'.threads|
    && StepsLeft(s'.threads[i].pc, s'.mStrong, s'.mWeak) < StepsLeft(s.threads[i].pc, s.mStrong, s.mWeak) <= 6
  }

  lemma PromotionFalls(s: State, i: nat, agrees: bool)
    requires i < |s.threads| && VerdictOf(s.threads[i].pc).Waiting?
    ensures FewerSteps(s, AdvanceStep(s, i, agrees), i)
  {
  }

  lemma ReleaseFalls(s: State, i: nat, agrees: bool)
    requires i < |s.threads| && Releasing(s.threads[i].pc)
    ensures FewerSteps(s, AdvanceStep(s, i, agrees), i)
  {
  }

  lemma StepsFall(s: State, i: nat, agrees: bool)
    requires i < |s.threads| && !s.threads[i].pc.Idle?
    ensures FewerSteps(s, AdvanceStep(s, i, agrees), i)
  {
    if VerdictOf(s.threads[i].pc).Waiting? {
      PromotionFalls(s, i, agrees);
    } else if Releasing(s.threads[i].pc) {
      ReleaseFalls(s, i, agrees);
    }
  }

  /** Action m is a step of thread i. */
  ghost predicate OwnAdvance(ss: seq<State>, acts: seq<Action>, i: nat, m: nat) {
    m < |acts| && m + 1 < |ss| && acts[m].Advance? && acts[m].i == i && FewerSteps(ss[m], ss[m + 1], i)
  }

  lemma StepFalls(ss: seq<State>, acts: seq<Action>, i: nat, m: nat)
    requires Run(ss, acts) && m < |acts| && acts[m].Advance? && acts[m].i == i
    ensures OwnAdvance(ss, acts, i, m)
  {
    StepsFall(ss[m], i, acts[m].agrees);
  }

  lemma {:induction false} StepsAdd(ss: seq<State>, acts: seq<Action>, i: nat, j: nat, k: nat)
    requires j < k && j < |ss| && forall m :: j <= m < k ==> OwnAdvance(ss, acts, i, m)
    ensures i < |ss[j].threads| && k - j <= StepsLeft(ss[j].threads[i].pc, ss[j].mStrong, ss[j].mWeak) <= 6
    decreases k - j
  {
    assert OwnAdvance(ss, acts, i, j);
    if j + 1 < k {
      StepsAdd(ss, acts, i, j + 1, k);
    }
  }

  /**
    In every interleaving a thread takes at most six steps of its calls in a row: a call that nobody
    disturbs returns, whatever it has read before.
   */
  lemma UndisturbedCallsReturn(ss: seq<State>, acts: seq<Action>, i: nat, j: nat, k: nat)
    requires Run(ss, acts) && j <= k <= |acts| && forall m :: j <= m < k ==> acts[m].Advance? && acts[m].i == i
    ensures k - j <= 6
  {
    forall m | j <= m < k ensures OwnAdvance(ss, acts, i, m) {
      StepFalls(ss, acts, i, m);
    }
    if j < k {
      StepsAdd(ss, acts, i, j, k);
    }
  }

  // ---------- why the first incStrong must be alone ----------

  /** Thread i takes its step as often as the first incStrong needs to reach SubtractBias. */
  function UpToSubtractBias(s: State, i: nat): State
    requires i < |s.threads| && (s.threads[i].pc == IncStrong(true) || s.threads[i].pc.SubtractBias?)
  {
    if s.threads[i].pc.SubtractBias? then s else AdvanceStep(s, i, true)
  }

  /**
    The guard of attemptIncStrong cannot be dropped: from every reachable state in which
    the first incStrong is in flight, a promotion that starts now can also subtract the
    bias, so that it is subtracted twice and mStrong ends negative with two references.
   */
  lemma OverlapRemovesTheBiasTwice(s: State, i: nat, j: nat)
    requires Inv(s) && i < |s.threads| && j < |s.threads| && i != j
    requires s.threads[i].pc == IncStrong(true) || s.threads[i].pc.SubtractBias?
    requires s.threads[j].pc.Idle? && s.threads[j].weak >= 1
    ensures var s1 := AttemptIncStrongStep(UpToSubtractBias(s, i), j);
            s1.threads[j].pc.Load? &&
            var s2 := AdvanceStep(s1, j, true);
            s2.threads[j].pc == Cas(INITIAL_STRONG_VALUE + 1) &&
            var s3 := AdvanceStep(s2, j, true);
            s3.threads[j].pc.FixLoad? &&
            var s4 := AdvanceStep(s3, j, true);
            s4.threads[j].pc.FixCas? &&
            var s5 := AdvanceStep(s4, j, true);
            s5.threads[i].pc.SubtractBias? &&
            var s6 := AdvanceStep(s5, i, true);
            s6.biasRemovals == 2 && s6.mStrong == 2 - INITIAL_STRONG_VALUE &&
            s6.threads[i].strong == 1 && s6.threads[j].strong == 1
  {
    if s.threads[i].pc == IncStrong(true) {
      FirstSeesTheBias(s, i);
    } else {
      SubtractBiasIsAlone(s, i);
    }
    assert ThreadOk(s.threads[i], s.extended, Biased(s)) && ThreadOk(s.threads[j], s.extended, Biased(s));
    TotalCovers(s.threads, i);
  }

  lemma SubtractBiasIsAlone(s: State, i: nat)
    requires Inv(s) && i < |s.threads| && s.threads[i].pc.SubtractBias?
    ensures s.mStrong == INITIAL_STRONG_VALUE + 1
  {
    TotalCovers(s.threads, i);
    forall k | 0 <= k < |s.threads| ensures Of(s.threads[k]).strong <= Of(s.threads[k]).first {
      WhileBiased(s, k);
    }
    FirstOnlyIf(s.threads, |s.threads|);
    StrongBelowFirst(s.threads, |s.threads|);
  }
}
