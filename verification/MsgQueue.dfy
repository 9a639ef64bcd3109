/**
  hi_msg_queue.c: a message pool of two linked lists, each guarded by a mutex and counted
  by a semaphore, as a state machine over the pointer writes and synchronisation calls of
  any number of threads.
 */
module MsgQueue {
  import opened Arithmetic
  import opened Basics
  import opened Links

  type Msg = nat

  /**
    message_half_t, with the messages its pointers link, in order, and all messages ever
    linked into it and removed from it.
   */
  datatype Half = Half(head: Ptr, tail: Ptr, sem: nat, owner: Option<nat>,
                       list: seq<Msg>, linked: seq<Msg>, removed: seq<Msg>)

  /** A position in message_half_add or message_half_remove on half h; the comment is the next step. */
  datatype Pc =
    | Idle
    | AddLock(h: nat, m: Msg)       // pthread_mutex_lock
    | AddClear(h: nat, m: Msg)      // message_hdr_next = NULL
    | AddLink(h: nat, m: Msg)       // head = Message, or tail->next = Message
    | AddTail(h: nat, m: Msg)       // tail = Message
    | AddUnlock(h: nat)             // pthread_mutex_unlock
    | AddPost(h: nat)               // sem_post
    | RemoveWait(h: nat)            // sem_wait
    | RemovePoll(h: nat, waited: nat, limit: nat)   // sem_trywait, then a sleep of 10 ms
    | RemoveLock(h: nat)            // pthread_mutex_lock
    | RemoveRead(h: nat)            // Message = head
    | RemoveUnlink(h: nat, m: Msg)  // head = Message->next
    | RemoveUnlock(h: nat, m: Msg)  // pthread_mutex_unlock

  /** A thread, the messages its client holds and its position. */
  datatype Thread = Thread(held: set<Msg>, pc: Pc)

  /** Where a message is; the messages that have a place are the pool. */
  datatype Place = InList(h: nat) | With(t: nat)

  datatype State = State(next: map<Msg, Ptr>, halves: seq<Half>, threads: seq<Thread>,
                         place: map<Msg, Place>)

  datatype Action =
    | CallAdd(t: nat, h: nat, m: Msg)                 // message_send, message_release
    | CallRemove(t: nat, h: nat)                      // message_receive, message_claim
    | CallRemoveTimed(t: nat, h: nat, limit: nat)     // the same with a timeout
    | Give(t: nat, u: nat, m: Msg)                    // a client hands a message to another
    | Step(t: nat)

  predicate Enabled(s: State, a: Action) {
    a.t < |s.threads| && |s.halves| == 2 &&
    var th := s.threads[a.t];
    match a
    case CallAdd(_, h, m) => th.pc.Idle? && h < 2 && m in th.held
    case CallRemove(_, h) => th.pc.Idle? && h < 2
    case CallRemoveTimed(_, h, limit) => th.pc.Idle? && h < 2 && limit < UINT_VALUES
    case Give(_, u, m) => th.pc.Idle? && m in th.held && u < |s.threads| && u != a.t
    case Step(_) => StepEnabled(s, th.pc)
  }

  predicate StepEnabled(s: State, pc: Pc)
    requires |s.halves| == 2
  {
    !pc.Idle? && pc.h < 2 &&
    match pc
    case AddLock(h, _) => s.halves[h].owner.None?
    case RemoveLock(h) => s.halves[h].owner.None?
    case RemoveWait(h) => s.halves[h].sem > 0
    case AddClear(_, m) => m in s.next
    case AddLink(h, m) => m in s.next && (s.halves[h].head.Some? ==> s.halves[h].tail.Some? && s.halves[h].tail.value in s.next)
    case RemoveRead(h) => s.halves[h].head.Some?
    case RemoveUnlink(_, m) => m in s.next
    case _ => true
  }

  function Go(s: State, t: nat, pc: Pc): State
    requires t < |s.threads|
  {
    s.(threads := s.threads[t := s.threads[t].(pc := pc)])
  }

  function PutHalf(s: State, h: nat, half: Half): State
    requires h < |s.halves|
  {
    s.(halves := s.halves[h := half])
  }

  /** head = Message, or tail->next = Message: the message is now linked. */
  function LinkStep(s: State, t: nat, h: nat, m: Msg): State
    requires t < |s.threads| && h < |s.halves| && (s.halves[h].head.Some? ==> s.halves[h].tail.Some?)
  {
    var half := s.halves[h];
    var half' := half.(head := if half.head.None? then Some(m) else half.head,
                       list := half.list + [m], linked := half.linked + [m]);
    State(if half.head.None? then s.next else s.next[half.tail.value := Some(m)], s.halves[h := half'],
          s.threads[t := Thread(s.threads[t].held, AddTail(h, m))], s.place[m := InList(h)])
  }

  /** head = Message->next: the message is now the caller's. */
  function UnlinkStep(s: State, t: nat, h: nat, m: Msg): State
    requires t < |s.threads| && h < |s.halves| && m in s.next
  {
    var half := s.halves[h];
    var half' := half.(head := s.next[m], list := if half.list == [] then [] else half.list[1..],
                       removed := half.removed + [m]);
    State(s.next, s.halves[h := half'],
          s.threads[t := Thread(s.threads[t].held, RemoveUnlock(h, m))], s.place[m := With(t)])
  }

  /** Message->next = NULL. */
  function ClearStep(s: State, t: nat, h: nat, m: Msg): State
    requires t < |s.threads|
  {
    s.(next := s.next[m := None], threads := s.threads[t := s.threads[t].(pc := AddLink(h, m))])
  }

  /** A successful sem_wait or sem_trywait. */
  function TakeToken(s: State, t: nat, h: nat): State
    requires t < |s.threads| && h < |s.halves| && s.halves[h].sem > 0
  {
    Go(PutHalf(s, h, s.halves[h].(sem := s.halves[h].sem - 1)), t, RemoveLock(h))
  }

  /** The values of an unsigned int. */
  const UINT_VALUES: nat := 0x1_0000_0000

  /** After a poll in vain and a sleep of 10 ms, the time counted in 32 bits. */
  function PollAgain(h: nat, waited: nat, limit: nat): Pc {
    var now := (waited + 10) % UINT_VALUES;
    if waited == limit || now > limit then Idle else RemovePoll(h, now, limit)
  }

  /** One step of a thread. */
  function StepOf(s: State, t: nat): State
    requires t < |s.threads| && |s.halves| == 2 && StepEnabled(s, s.threads[t].pc)
  {
    var pc := s.threads[t].pc;
    var half := s.halves[pc.h];
    match pc
    case AddLock(h, m) => Go(PutHalf(s, h, half.(owner := Some(t))), t, AddClear(h, m))
    case AddClear(h, m) => ClearStep(s, t, h, m)
    case AddLink(h, m) => LinkStep(s, t, h, m)
    case AddTail(h, m) => Go(PutHalf(s, h, half.(tail := Some(m))), t, AddUnlock(h))
    case AddUnlock(h) => Go(PutHalf(s, h, half.(owner := None)), t, AddPost(h))
    case AddPost(h) => Go(PutHalf(s, h, half.(sem := half.sem + 1)), t, Idle)
    case RemoveWait(h) => TakeToken(s, t, h)
    case RemovePoll(h, waited, limit) =>
      if half.sem > 0 then TakeToken(s, t, h)
      else Go(s, t, PollAgain(h, waited, limit))
    case RemoveLock(h) => Go(PutHalf(s, h, half.(owner := Some(t))), t, RemoveRead(h))
    case RemoveRead(h) => Go(s, t, RemoveUnlink(h, half.head.value))
    case RemoveUnlink(h, m) => UnlinkStep(s, t, h, m)
    case RemoveUnlock(h, m) =>
      var s' := PutHalf(s, h, half.(owner := None));
      s'.(threads := s.threads[t := Thread(s.threads[t].held + {m}, Idle)])
  }

  function Apply(s: State, a: Action): State
    requires Enabled(s, a)
  {
    var th := s.threads[a.t];
    match a
    case CallAdd(t, h, m) => s.(threads := s.threads[t := Thread(th.held - {m}, AddLock(h, m))])
    case CallRemove(t, h) => Go(s, t, RemoveWait(h))
    case CallRemoveTimed(t, h, limit) => Go(s, t, RemovePoll(h, 0, limit))
    case Give(t, u, m) => GiveStep(s, t, u, m)
    case Step(t) => StepOf(s, t)
  }

  function GiveStep(s: State, t: nat, u: nat, m: Msg): State
    requires t < |s.threads| && u < |s.threads| && u != t
  {
    var th, other := s.threads[t], s.threads[u];
    s.(threads := s.threads[t := th.(held := th.held - {m})][u := other.(held := other.held + {m})],
       place := s.place[m := With(u)])
  }

  // ---------- the invariant ----------

  /** The critical section of half h. */
  predicate Inside(pc: Pc, h: nat) {
    (pc.AddClear? || pc.AddLink? || pc.AddTail? || pc.AddUnlock? ||
     pc.RemoveRead? || pc.RemoveUnlink? || pc.RemoveUnlock?) && pc.h == h
  }

  /** Linked but not yet posted, or waited for but not yet unlinked. */
  function Credit(pc: Pc, h: nat): nat {
    if (pc.AddTail? || pc.AddUnlock? || pc.AddPost? || pc.RemoveLock? || pc.RemoveRead? || pc.RemoveUnlink?) && pc.h == h
    then 1 else 0
  }

  function Credits(ts: seq<Thread>, h: nat): nat {
    if ts == [] then 0 else Credit(ts[0].pc, h) + Credits(ts[1..], h)
  }

  /** The message a call carries, outside the lists and the client. */
  predicate Carries(pc: Pc, m: Msg) {
    (pc.AddLock? || pc.AddClear? || pc.AddLink? || pc.RemoveUnlock?) && pc.m == m
  }

  predicate Has(th: Thread, m: Msg) {
    m in th.held || Carries(th.pc, m)
  }

  /** The list is what the pointers link and what was linked less what was removed. */
  predicate ListOk(half: Half, next: map<Msg, Ptr>, place: map<Msg, Place>, h: nat) {
    && Distinct(half.list) && Chain(next, half.head, half.list)
    && (forall m :: m in half.list ==> m in place && place[m] == InList(h))
    && half.linked == half.removed + half.list
  }

  /** tail is the last message, unless the owner of the mutex is about to set it. */
  predicate TailOk(half: Half, threads: seq<Thread>, h: nat) {
    half.list != [] ==>
      var last := half.list[|half.list| - 1];
      half.tail == Some(last) ||
      (half.owner.Some? && half.owner.value < |threads| && threads[half.owner.value].pc == AddTail(h, last))
  }

  predicate MutexOk(owner: Option<nat>, threads: seq<Thread>, h: nat) {
    && (owner.Some? ==> owner.value < |threads|)
    && (forall t :: 0 <= t < |threads| ==> (Inside(threads[t].pc, h) <==> owner == Some(t)))
  }

  predicate HalfOk(half: Half, next: map<Msg, Ptr>, place: map<Msg, Place>, threads: seq<Thread>, h: nat) {
    && ListOk(half, next, place, h) && TailOk(half, threads, h) && MutexOk(half.owner, threads, h)
    && |half.list| == half.sem + Credits(threads, h)
  }

  ghost predicate PcOk(pc: Pc, next: map<Msg, Ptr>, halves: seq<Half>) {
    !pc.Idle? ==>
      && pc.h < |halves|
      && (pc.AddLink? ==> pc.m in next && next[pc.m] == None)
      && (pc.AddTail? ==> var list := halves[pc.h].list; list != [] && list[|list| - 1] == pc.m)
      && (pc.RemoveUnlink? ==> var list := halves[pc.h].list; list != [] && list[0] == pc.m)
      && (pc.RemovePoll? ==> pc.waited <= pc.limit)
  }

  /** The messages of a thread are placed with it, each once. */
  ghost predicate OwnsOk(th: Thread, t: nat, place: map<Msg, Place>) {
    && (forall m :: Has(th, m) ==> m in place && place[m] == With(t))
    && (forall m :: m in th.held ==> !Carries(th.pc, m))
  }

  predicate PlaceOk(m: Msg, place: map<Msg, Place>, halves: seq<Half>, threads: seq<Thread>)
    requires m in place
  {
    match place[m]
    case InList(h) => h < |halves| && m in halves[h].list
    case With(t) => t < |threads| && Has(threads[t], m)
  }

  ghost predicate HalvesOk(s: State) {
    |s.halves| == 2 && forall h :: 0 <= h < 2 ==> HalfOk(s.halves[h], s.next, s.place, s.threads, h)
  }

  ghost predicate ThreadsOk(s: State) {
    && (forall t :: 0 <= t < |s.threads| ==> OwnsOk(s.threads[t], t, s.place))
    && (forall t :: 0 <= t < |s.threads| ==> PcOk(s.threads[t].pc, s.next, s.halves))
  }

  ghost predicate PlacesOk(s: State) {
    && (forall m :: m in s.place ==> m in s.next)
    && (forall m :: m in s.place ==> PlaceOk(m, s.place, s.halves, s.threads))
  }

  ghost predicate Inv(s: State) {
    HalvesOk(s) && ThreadsOk(s) && PlacesOk(s)
  }

  // ---------- credits ----------

  lemma {:induction false} CreditsUpdate(ts: seq<Thread>, t: nat, th: Thread, h: nat)
    requires t < |ts|
    ensures Credits(ts[t := th], h) == Credits(ts, h) - Credit(ts[t].pc, h) + Credit(th.pc, h)
  {
    if t == 0 {
      assert ts[0 := th][1..] == ts[1..];
    } else {
      assert ts[t := th][1..] == ts[1..][t - 1 := th];
      CreditsUpdate(ts[1..], t - 1, th, h);
    }
  }

  lemma {:induction false} CreditsCover(ts: seq<Thread>, t: nat, h: nat)
    requires t < |ts|
    ensures Credits(ts, h) >= Credit(ts[t].pc, h)
  {
    if t > 0 {
      CreditsCover(ts[1..], t - 1, h);
    }
  }

  /** A remover past the semaphore finds a message: head is not NULL. */
  lemma RemoverFindsMessage(s: State, t: nat)
    requires Inv(s) && t < |s.threads| && (s.threads[t].pc.RemoveRead? || s.threads[t].pc.RemoveLock?)
    ensures s.threads[t].pc.h < 2
    ensures var half := s.halves[s.threads[t].pc.h]; half.list != [] && half.head == Some(half.list[0])
  {
    var h := s.threads[t].pc.h;
    assert PcOk(s.threads[t].pc, s.next, s.halves);
    assert HalfOk(s.halves[h], s.next, s.place, s.threads, h);
    CreditsCover(s.threads, t, h);
  }

  // ---------- steps that leave the lists alone ----------

  /** Lists, next fields and places are as before, and so are the messages of every thread. */
  ghost predicate Quiet(s: State, s': State, t: nat) {
    && t < |s.threads| && |s.halves| == |s'.halves| == 2
    && s'.next == s.next && s'.place == s.place
    && |s'.threads| == |s.threads| && s'.threads == s.threads[t := s'.threads[t]]
    && SameMessages(s.threads[t], s'.threads[t])
    && (forall h :: 0 <= h < 2 ==> SameLists(s.halves[h], s'.halves[h]))
  }

  ghost predicate SameMessages(th: Thread, th': Thread) {
    && (forall m :: Has(th', m) <==> Has(th, m))
    && (forall m :: m in th'.held ==> !Carries(th'.pc, m))
  }

  predicate SameLists(half: Half, half': Half) {
    half' == half.(tail := half'.tail, sem := half'.sem, owner := half'.owner)
  }

  lemma QuietKeepsInv(s: State, s': State, t: nat)
    requires Inv(s) && Quiet(s, s', t)
    requires PcOk(s'.threads[t].pc, s'.next, s'.halves)
    requires forall h :: 0 <= h < 2 ==> HalfOk(s'.halves[h], s'.next, s'.place, s'.threads, h)
    ensures Inv(s')
  {
    QuietThreads(s, s', t);
    QuietPlaces(s, s', t);
  }

  lemma QuietThreads(s: State, s': State, t: nat)
    requires Inv(s) && Quiet(s, s', t) && PcOk(s'.threads[t].pc, s'.next, s'.halves)
    ensures ThreadsOk(s')
  {
    forall u | 0 <= u < |s.threads| ensures OwnsOk(s'.threads[u], u, s'.place) {
      assert OwnsOk(s.threads[u], u, s.place);
    }
    forall u | 0 <= u < |s.threads| ensures PcOk(s'.threads[u].pc, s'.next, s'.halves) {
      if u != t {
        assert PcOk(s.threads[u].pc, s.next, s.halves);
      }
    }
  }

  lemma QuietPlaces(s: State, s': State, t: nat)
    requires Inv(s) && Quiet(s, s', t)
    ensures PlacesOk(s')
  {
    forall m | m in s'.place ensures PlaceOk(m, s'.place, s'.halves, s'.threads) {
      assert PlaceOk(m, s.place, s.halves, s.threads);
    }
  }

  /** A half whose list is as before, after thread t moved to pc'. */
  lemma HalfKept(s: State, half': Half, t: nat, th': Thread, k: nat)
    requires Inv(s) && t < |s.threads| && k < 2 && SameLists(s.halves[k], half')
    requires half'.sem + Credit(th'.pc, k) == s.halves[k].sem + Credit(s.threads[t].pc, k)
    requires Inside(th'.pc, k) ==> half'.owner == Some(t)
    requires !Inside(th'.pc, k) ==> half'.owner != Some(t)
    requires half'.owner == s.halves[k].owner || (s.halves[k].owner == None && half'.owner == Some(t)) ||
             (s.halves[k].owner == Some(t) && half'.owner == None)
    requires TailOk(half', s.threads[t := th'], k)
    ensures HalfOk(half', s.next, s.place, s.threads[t := th'], k)
  {
    assert HalfOk(s.halves[k], s.next, s.place, s.threads, k);
    CreditsUpdate(s.threads, t, th', k);
    assert MutexOk(s.halves[k].owner, s.threads, k);
    assert MutexOk(half'.owner, s.threads[t := th'], k);
  }

  /** The tail stays in order when it is not touched and t is not the one about to set it. */
  lemma TailKept(s: State, half': Half, t: nat, th': Thread, k: nat)
    requires Inv(s) && t < |s.threads| && k < 2 && SameLists(s.halves[k], half') && half'.tail == s.halves[k].tail
    requires !s.threads[t].pc.AddTail?
    requires half'.owner == s.halves[k].owner || s.halves[k].owner == None || s.halves[k].owner == Some(t)
    ensures TailOk(half', s.threads[t := th'], k)
  {
    assert HalfOk(s.halves[k], s.next, s.place, s.threads, k);
  }

  /** What a quiet step of thread t may do to half k: move its own credit or its own mutex. */
  predicate HalfStep(half: Half, half': Half, pc: Pc, pc': Pc, t: nat, k: nat) {
    && SameLists(half, half') && half'.tail == half.tail
    && half'.sem + Credit(pc', k) == half.sem + Credit(pc, k)
    && (Inside(pc', k) <==> half'.owner == Some(t))
    && (half'.owner == half.owner || (half.owner == None && half'.owner == Some(t)) ||
        (half.owner == Some(t) && half'.owner == None))
  }

  lemma MoveKeepsInv(s: State, s': State, t: nat)
    requires Inv(s) && Quiet(s, s', t) && !s.threads[t].pc.AddTail?
    requires PcOk(s'.threads[t].pc, s'.next, s'.halves)
    requires forall k :: 0 <= k < 2 ==>
               HalfStep(s.halves[k], s'.halves[k], s.threads[t].pc, s'.threads[t].pc, t, k)
    ensures Inv(s')
  {
    forall k | 0 <= k < 2 ensures HalfOk(s'.halves[k], s'.next, s'.place, s'.threads, k) {
      assert HalfStep(s.halves[k], s'.halves[k], s.threads[t].pc, s'.threads[t].pc, t, k);
      TailKept(s, s'.halves[k], t, s'.threads[t], k);
      HalfKept(s, s'.halves[k], t, s'.threads[t], k);
    }
    QuietKeepsInv(s, s', t);
  }

  /** Facts about the thread at hand. */
  lemma AtThread(s: State, t: nat)
    requires Inv(s) && t < |s.threads|
    ensures OwnsOk(s.threads[t], t, s.place) && PcOk(s.threads[t].pc, s.next, s.halves)
    ensures forall k :: 0 <= k < 2 ==> (Inside(s.threads[t].pc, k) <==> s.halves[k].owner == Some(t))
  {
    forall k | 0 <= k < 2 ensures Inside(s.threads[t].pc, k) <==> s.halves[k].owner == Some(t) {
      assert HalfOk(s.halves[k], s.next, s.place, s.threads, k);
    }
  }

  lemma LockKeepsInv(s: State, t: nat)
    requires Inv(s) && Enabled(s, Step(t))
    requires var pc := s.threads[t].pc; pc.AddLock? || pc.RemoveLock? || pc.AddUnlock?
    ensures Inv(StepOf(s, t))
  {
    AtThread(s, t);
    MoveKeepsInv(s, StepOf(s, t), t);
  }

  lemma PostKeepsInv(s: State, t: nat)
    requires Inv(s) && Enabled(s, Step(t)) && s.threads[t].pc.AddPost?
    ensures Inv(StepOf(s, t))
  {
    AtThread(s, t);
    MoveKeepsInv(s, StepOf(s, t), t);
  }

  lemma TakeTokenKeepsInv(s: State, t: nat, h: nat)
    requires Inv(s) && t < |s.threads| && h < 2 && s.halves[h].sem > 0
    requires s.threads[t].pc == RemoveWait(h) || (s.threads[t].pc.RemovePoll? && s.threads[t].pc.h == h)
    ensures Inv(TakeToken(s, t, h))
  {
    AtThread(s, t);
    MoveKeepsInv(s, TakeToken(s, t, h), t);
  }

  lemma PollAgainKeepsInv(s: State, t: nat, pc: Pc)
    requires Inv(s) && t < |s.threads| && s.threads[t].pc.RemovePoll?
    requires pc.Idle? || (pc.RemovePoll? && pc.h < 2 && pc.waited <= pc.limit)
    ensures Inv(Go(s, t, pc))
  {
    AtThread(s, t);
    MoveKeepsInv(s, Go(s, t, pc), t);
  }

  lemma WaitKeepsInv(s: State, t: nat)
    requires Inv(s) && Enabled(s, Step(t)) && (s.threads[t].pc.RemoveWait? || s.threads[t].pc.RemovePoll?)
    ensures Inv(StepOf(s, t))
  {
    var pc := s.threads[t].pc;
    if s.halves[pc.h].sem > 0 {
      assert StepOf(s, t) == TakeToken(s, t, pc.h);
      TakeTokenKeepsInv(s, t, pc.h);
    } else {
      var pc' := PollAgain(pc.h, pc.waited, pc.limit);
      assert StepOf(s, t) == Go(s, t, pc');
      PollAgainKeepsInv(s, t, pc');
    }
  }

  lemma RemoveReadKeepsInv(s: State, t: nat)
    requires Inv(s) && Enabled(s, Step(t)) && s.threads[t].pc.RemoveRead?
    ensures Inv(StepOf(s, t))
  {
    AtThread(s, t);
    RemoverFindsMessage(s, t);
    MoveKeepsInv(s, StepOf(s, t), t);
  }

  lemma RemoveUnlockKeepsInv(s: State, t: nat)
    requires Inv(s) && Enabled(s, Step(t)) && s.threads[t].pc.RemoveUnlock?
    ensures Inv(StepOf(s, t))
  {
    AtThread(s, t);
    MoveKeepsInv(s, StepOf(s, t), t);
  }

  lemma CallRemoveKeepsInv(s: State, t: nat, pc: Pc)
    requires Inv(s) && t < |s.threads| && s.threads[t].pc.Idle?
    requires (pc.RemoveWait? || (pc.RemovePoll? && pc.waited <= pc.limit)) && pc.h < 2
    ensures Inv(Go(s, t, pc))
  {
    AtThread(s, t);
    MoveKeepsInv(s, Go(s, t, pc), t);
  }

  lemma CallAddKeepsInv(s: State, t: nat, h: nat, m: Msg)
    requires Inv(s) && t < |s.threads| && s.threads[t].pc.Idle? && h < 2 && m in s.threads[t].held
    ensures Inv(s.(threads := s.threads[t := Thread(s.threads[t].held - {m}, AddLock(h, m))]))
  {
    var s' := s.(threads := s.threads[t := Thread(s.threads[t].held - {m}, AddLock(h, m))]);
    AtThread(s, t);
    MoveKeepsInv(s, s', t);
  }

  lemma AddTailKeepsInv(s: State, t: nat)
    requires Inv(s) && Enabled(s, Step(t)) && s.threads[t].pc.AddTail?
    ensures Inv(StepOf(s, t))
  {
    var s' := StepOf(s, t);
    AtThread(s, t);
    forall k | 0 <= k < 2 ensures HalfOk(s'.halves[k], s'.next, s'.place, s'.threads, k) {
      assert HalfOk(s.halves[k], s.next, s.place, s.threads, k);
      HalfKept(s, s'.halves[k], t, s'.threads[t], k);
    }
    QuietKeepsInv(s, s', t);
  }

  // ---------- steps that change a list, a next field or a place ----------

  /** A message that thread t has is in no list and with no other thread. */
  lemma OnlyWith(s: State, t: nat, m: Msg)
    requires Inv(s) && t < |s.threads| && Has(s.threads[t], m)
    ensures m in s.place && s.place[m] == With(t)
    ensures forall k :: 0 <= k < 2 ==> m !in s.halves[k].list
    ensures forall u :: 0 <= u < |s.threads| && u != t ==> !Has(s.threads[u], m)
  {
    AtThread(s, t);
    forall k | 0 <= k < 2 ensures m !in s.halves[k].list {
      assert HalfOk(s.halves[k], s.next, s.place, s.threads, k);
    }
    forall u | 0 <= u < |s.threads| && u != t ensures !Has(s.threads[u], m) {
      AtThread(s, u);
    }
  }

  lemma ListOkOther(half: Half, next: map<Msg, Ptr>, place: map<Msg, Place>, h: nat, next': map<Msg, Ptr>, place': map<Msg, Place>)
    requires ListOk(half, next, place, h)
    requires forall m :: m in half.list ==> m in next && m in next' && next'[m] == next[m]
    requires forall m :: m in half.list ==> m in place && m in place' && place'[m] == place[m]
    ensures ListOk(half, next', place', h)
  {
    forall i | 0 <= i < |half.list| ensures LinkOk(next', half.list, i) {
      assert LinkOk(next, half.list, i) && half.list[i] in half.list;
    }
  }

  lemma ListInNext(half: Half, next: map<Msg, Ptr>, place: map<Msg, Place>, h: nat)
    requires ListOk(half, next, place, h)
    ensures forall m :: m in half.list ==> m in next
  {
    forall m | m in half.list ensures m in next {
      var i :| 0 <= i < |half.list| && half.list[i] == m;
      assert LinkOk(next, half.list, i);
    }
  }

  /** A half with the same list after t moved and one next field of t's message changed. */
  lemma ClearedHalf(s: State, t: nat, h: nat, m: Msg, k: nat)
    requires Inv(s) && t < |s.threads| && k < 2 && s.threads[t].pc == AddClear(h, m) && m in s.next
    ensures var s' := ClearStep(s, t, h, m); HalfOk(s'.halves[k], s'.next, s'.place, s'.threads, k)
  {
    var th' := s.threads[t].(pc := AddLink(h, m));
    AtThread(s, t);
    OnlyWith(s, t, m);
    TailKept(s, s.halves[k], t, th', k);
    HalfKept(s, s.halves[k], t, th', k);
    ListInNext(s.halves[k], s.next, s.place, k);
    ListOkOther(s.halves[k], s.next, s.place, k, s.next[m := None], s.place);
  }

  lemma ClearedPc(s: State, t: nat, m: Msg, u: nat)
    requires Inv(s) && t < |s.threads| && Has(s.threads[t], m) && u < |s.threads| && u != t && m in s.next
    ensures PcOk(s.threads[u].pc, s.next[m := None], s.halves)
  {
    AtThread(s, u);
  }

  lemma ClearInv(s: State, t: nat, h: nat, m: Msg)
    requires Inv(s) && t < |s.threads| && s.threads[t].pc == AddClear(h, m) && m in s.next
    ensures Inv(ClearStep(s, t, h, m))
  {
    ClearedHalves(s, t, h, m);
    ClearedThreads(s, t, h, m);
    AtThread(s, t);
    ClearedMessages(s.threads[t], t, s.place, h, m);
    ClearedPlaces(s, t, s.threads[t].(pc := AddLink(h, m)), m);
  }

  lemma ClearedHalves(s: State, t: nat, h: nat, m: Msg)
    requires Inv(s) && t < |s.threads| && s.threads[t].pc == AddClear(h, m) && m in s.next
    ensures HalvesOk(ClearStep(s, t, h, m))
  {
    ClearedHalf(s, t, h, m, 0);
    ClearedHalf(s, t, h, m, 1);
    TwoHalves(ClearStep(s, t, h, m), 0);
  }

  lemma TwoHalves(s: State, h: nat)
    requires |s.halves| == 2 && h < 2 && HalfOk(s.halves[h], s.next, s.place, s.threads, h)
    requires HalfOk(s.halves[1 - h], s.next, s.place, s.threads, 1 - h)
    ensures HalvesOk(s)
  {
  }

  lemma ClearedMessages(th: Thread, t: nat, place: map<Msg, Place>, h: nat, m: Msg)
    requires OwnsOk(th, t, place) && th.pc == AddClear(h, m)
    ensures SameMessages(th, th.(pc := AddLink(h, m)))
  {
  }

  lemma ClearedThreads(s: State, t: nat, h: nat, m: Msg)
    requires Inv(s) && t < |s.threads| && s.threads[t].pc == AddClear(h, m) && m in s.next
    ensures ThreadsOk(ClearStep(s, t, h, m))
  {
    var s' := ClearStep(s, t, h, m);
    forall u | 0 <= u < |s'.threads|
      ensures OwnsOk(s'.threads[u], u, s'.place) && PcOk(s'.threads[u].pc, s'.next, s'.halves)
    {
      AtThread(s, u);
      if u != t {
        ClearedPc(s, t, m, u);
      }
    }
  }

  lemma ClearedPlaces(s: State, t: nat, th': Thread, m: Msg)
    requires Inv(s) && t < |s.threads| && m in s.next && SameMessages(s.threads[t], th')
    ensures PlacesOk(s.(next := s.next[m := None], threads := s.threads[t := th']))
  {
    var s' := s.(next := s.next[m := None], threads := s.threads[t := th']);
    forall x | x in s'.place ensures PlaceOk(x, s'.place, s'.halves, s'.threads) {
      assert PlaceOk(x, s.place, s.halves, s.threads);
    }
  }

  lemma GiveInv(s: State, t: nat, u: nat, m: Msg)
    requires Inv(s) && t < |s.threads| && u < |s.threads| && u != t && m in s.threads[t].held
    ensures Inv(GiveStep(s, t, u, m))
  {
    var s' := GiveStep(s, t, u, m);
    assert HalvesOk(s') by {
      GiveHalf(s, t, u, m, 0);
      GiveHalf(s, t, u, m, 1);
    }
    GiveThreads(s, t, u, m);
    GivePlaces(s, t, u, m);
  }

  /** A message that is not moved stays where it is if its list and its thread keep it. */
  lemma PlaceKept(x: Msg, place: map<Msg, Place>, halves: seq<Half>, threads: seq<Thread>,
                  place': map<Msg, Place>, halves': seq<Half>, threads': seq<Thread>)
    requires x in place && x in place' && place'[x] == place[x] && PlaceOk(x, place, halves, threads)
    requires |halves'| == |halves| && forall h :: 0 <= h < |halves| && x in halves[h].list ==> x in halves'[h].list
    requires |threads'| == |threads| && forall t :: 0 <= t < |threads| && Has(threads[t], x) ==> Has(threads'[t], x)
    ensures PlaceOk(x, place', halves', threads')
  {
  }

  lemma GivePlaces(s: State, t: nat, u: nat, m: Msg)
    requires Inv(s) && t < |s.threads| && u < |s.threads| && u != t && m in s.threads[t].held
    ensures PlacesOk(GiveStep(s, t, u, m))
  {
    var s' := GiveStep(s, t, u, m);
    assert Has(s.threads[t], m);
    OnlyWith(s, t, m);
    forall x | x in s'.place ensures PlaceOk(x, s'.place, s'.halves, s'.threads) {
      if x != m {
        assert PlaceOk(x, s.place, s.halves, s.threads);
        PlaceKept(x, s.place, s.halves, s.threads, s'.place, s'.halves, s'.threads);
      }
    }
  }

  lemma GiveThreads(s: State, t: nat, u: nat, m: Msg)
    requires Inv(s) && t < |s.threads| && u < |s.threads| && u != t && m in s.threads[t].held
    ensures ThreadsOk(GiveStep(s, t, u, m))
  {
    var s' := GiveStep(s, t, u, m);
    assert Has(s.threads[t], m);
    OnlyWith(s, t, m);
    AtThread(s, t);
    forall x | 0 <= x < |s'.threads|
      ensures OwnsOk(s'.threads[x], x, s'.place) && PcOk(s'.threads[x].pc, s'.next, s'.halves)
    {
      AtThread(s, x);
      if x != t {
        assert !Has(s.threads[x], m);
      }
    }
  }

  lemma GiveHalf(s: State, t: nat, u: nat, m: Msg, k: nat)
    requires Inv(s) && t < |s.threads| && u < |s.threads| && u != t && m in s.threads[t].held && k < 2
    ensures var s' := GiveStep(s, t, u, m); HalfOk(s'.halves[k], s'.next, s'.place, s'.threads, k)
  {
    var s' := GiveStep(s, t, u, m);
    assert HalfOk(s.halves[k], s.next, s.place, s.threads, k);
    assert Has(s.threads[t], m);
    OnlyWith(s, t, m);
    ListInNext(s.halves[k], s.next, s.place, k);
    ListOkOther(s.halves[k], s.next, s.place, k, s.next, s'.place);
    CreditsUpdate(s.threads, t, s'.threads[t], k);
    CreditsUpdate(s.threads[t := s'.threads[t]], u, s'.threads[u], k);
    assert forall x :: 0 <= x < |s.threads| ==> s'.threads[x].pc == s.threads[x].pc;
  }

  lemma ChainGrows(next: map<Msg, Ptr>, head: Ptr, list: seq<Msg>, m: Msg)
    requires Chain(next, head, list) && Distinct(list) && m !in list && m in next && next[m] == None
    ensures Distinct(list + [m])
    ensures list == [] ==> Chain(next, Some(m), list + [m])
    ensures list != [] ==> Chain(next[list[|list| - 1] := Some(m)], head, list + [m])
  {
    if list == [] {
      assert list + [m] == [m];
    } else {
      var next' := next[list[|list| - 1] := Some(m)];
      var list' := list + [m];
      forall i | 0 <= i < |list'| ensures LinkOk(next', list', i) {
        if i < |list| {
          assert LinkOk(next, list, i);
        }
      }
    }
  }

  lemma ChainShrinks(next: map<Msg, Ptr>, head: Ptr, list: seq<Msg>)
    requires Chain(next, head, list) && Distinct(list) && list != []
    ensures list[0] in next && Distinct(list[1..]) && Chain(next, next[list[0]], list[1..])
  {
    assert LinkOk(next, list, 0);
    forall i | 0 <= i < |list[1..]| ensures LinkOk(next, list[1..], i) {
      assert LinkOk(next, list, i + 1);
    }
  }

  lemma GrownList(half: Half, next: map<Msg, Ptr>, place: map<Msg, Place>, h: nat, m: Msg)
    requires ListOk(half, next, place, h) && m !in half.list && m in next && next[m] == None
    requires half.list != [] ==> half.tail == Some(half.list[|half.list| - 1])
    ensures half.head.None? <==> half.list == []
    ensures var half' := half.(head := if half.head.None? then Some(m) else half.head,
                               list := half.list + [m], linked := half.linked + [m]);
            ListOk(half', if half.head.None? then next else next[half.tail.value := Some(m)], place[m := InList(h)], h)
  {
    ChainGrows(next, half.head, half.list, m);
    assert half.linked + [m] == half.removed + (half.list + [m]);
  }

  lemma ShrunkList(half: Half, next: map<Msg, Ptr>, place: map<Msg, Place>, h: nat, t: nat)
    requires ListOk(half, next, place, h) && half.list != []
    ensures half.list[0] in next
    ensures var m := half.list[0];
            var half' := half.(head := next[m], list := half.list[1..], removed := half.removed + [m]);
            ListOk(half', next, place[m := With(t)], h)
  {
    var m := half.list[0];
    ChainShrinks(next, half.head, half.list);
    assert half.list == [m] + half.list[1..];
    assert half.removed + half.list == (half.removed + [m]) + half.list[1..];
    assert forall i :: 0 <= i < |half.list[1..]| ==> half.list[1..][i] == half.list[i + 1];
    assert m !in half.list[1..];
  }

  /** The mutex of half h is held by t before and after. */
  lemma MutexKept(s: State, t: nat, th': Thread, k: nat)
    requires Inv(s) && t < |s.threads| && k < 2 && Inside(th'.pc, k) == Inside(s.threads[t].pc, k)
    ensures MutexOk(s.halves[k].owner, s.threads[t := th'], k)
  {
    assert HalfOk(s.halves[k], s.next, s.place, s.threads, k);
  }

  /** The half that AddLink changes. */
  lemma LinkedHalf(s: State, t: nat, h: nat, m: Msg)
    requires Inv(s) && t < |s.threads| && s.threads[t].pc == AddLink(h, m)
    ensures h < 2 && (s.halves[h].head.Some? ==> s.halves[h].tail.Some?)
    ensures var s' := LinkStep(s, t, h, m); HalfOk(s'.halves[h], s'.next, s'.place, s'.threads, h)
  {
    AtThread(s, t);
    OnlyWith(s, t, m);
    var half := s.halves[h];
    assert HalfOk(half, s.next, s.place, s.threads, h);
    assert half.owner == Some(t);
    GrownList(half, s.next, s.place, h, m);
    var s' := LinkStep(s, t, h, m);
    CreditsUpdate(s.threads, t, s'.threads[t], h);
    MutexKept(s, t, s'.threads[t], h);
  }

  /** The other half, untouched by the step. */
  lemma OtherHalf(s: State, t: nat, th': Thread, k: nat, next': map<Msg, Ptr>, place': map<Msg, Place>)
    requires Inv(s) && t < |s.threads| && k < 2 && !s.threads[t].pc.AddTail?
    requires Credit(th'.pc, k) == Credit(s.threads[t].pc, k) && Inside(th'.pc, k) == Inside(s.threads[t].pc, k)
    requires forall x :: x in s.halves[k].list && x in s.next ==> x in next' && next'[x] == s.next[x]
    requires forall x :: x in s.halves[k].list && x in s.place ==> x in place' && place'[x] == s.place[x]
    ensures HalfOk(s.halves[k], next', place', s.threads[t := th'], k)
  {
    assert HalfOk(s.halves[k], s.next, s.place, s.threads, k);
    CreditsUpdate(s.threads, t, th', k);
    ListInNext(s.halves[k], s.next, s.place, k);
    ListOkOther(s.halves[k], s.next, s.place, k, next', place');
    MutexKept(s, t, th', k);
  }

  /** The two lists have no message in common. */
  lemma ListsApart(s: State, h: nat, m: Msg)
    requires Inv(s) && h < 2 && m in s.halves[h].list
    ensures m in s.place && m !in s.halves[1 - h].list
    ensures forall t :: 0 <= t < |s.threads| ==> !Has(s.threads[t], m)
  {
    assert HalfOk(s.halves[h], s.next, s.place, s.threads, h);
    assert HalfOk(s.halves[1 - h], s.next, s.place, s.threads, 1 - h);
    forall t | 0 <= t < |s.threads| ensures !Has(s.threads[t], m) {
      AtThread(s, t);
    }
  }

  lemma UpdateElsewhere<T>(list: seq<Msg>, f: map<Msg, T>, k: Msg, v: T)
    requires k !in list
    ensures forall x :: x in list && x in f ==> x in f[k := v] && f[k := v][x] == f[x]
  {
  }

  lemma LinkedOther(s: State, t: nat, h: nat, m: Msg)
    requires Inv(s) && t < |s.threads| && s.threads[t].pc == AddLink(h, m) && h < 2
    requires s.halves[h].head.Some? ==> s.halves[h].tail.Some?
    ensures var s' := LinkStep(s, t, h, m); HalfOk(s'.halves[1 - h], s'.next, s'.place, s'.threads, 1 - h)
  {
    var half := s.halves[h];
    OnlyWith(s, t, m);
    LinkTouchesOwnList(s, t, h, m);
    if half.head.Some? {
      UpdateElsewhere(s.halves[1 - h].list, s.next, half.tail.value, Some(m));
    }
    LinkedElsewhere(s, t, h, m, if half.head.None? then s.next else s.next[half.tail.value := Some(m)]);
  }

  lemma LinkedElsewhere(s: State, t: nat, h: nat, m: Msg, next': map<Msg, Ptr>)
    requires Inv(s) && t < |s.threads| && s.threads[t].pc == AddLink(h, m) && h < 2 && m !in s.halves[1 - h].list
    requires forall x :: x in s.halves[1 - h].list && x in s.next ==> x in next' && next'[x] == s.next[x]
    ensures HalfOk(s.halves[1 - h], next', s.place[m := InList(h)],
                   s.threads[t := Thread(s.threads[t].held, AddTail(h, m))], 1 - h)
  {
    UpdateElsewhere(s.halves[1 - h].list, s.place, m, InList(h));
    OtherHalf(s, t, Thread(s.threads[t].held, AddTail(h, m)), 1 - h, next', s.place[m := InList(h)]);
  }

  /** The next field that AddLink writes belongs to the last message of its own list. */
  lemma LinkTouchesOwnList(s: State, t: nat, h: nat, m: Msg)
    requires Inv(s) && t < |s.threads| && s.threads[t].pc == AddLink(h, m) && h < 2
    requires s.halves[h].head.Some? ==> s.halves[h].tail.Some?
    ensures s.halves[h].head.Some? ==>
              s.halves[h].list != [] && s.halves[h].tail.value == s.halves[h].list[|s.halves[h].list| - 1]
    ensures s.halves[h].head.Some? ==> s.halves[h].tail.value !in s.halves[1 - h].list
  {
    var half := s.halves[h];
    AtThread(s, t);
    assert HalfOk(half, s.next, s.place, s.threads, h);
    assert half.owner == Some(t);
    if half.list != [] {
      ListsApart(s, h, half.list[|half.list| - 1]);
    }
  }

  lemma LinkOthers(s: State, t: nat, h: nat, m: Msg, u: nat)
    requires Inv(s) && t < |s.threads| && s.threads[t].pc == AddLink(h, m) && h < 2 && u < |s.threads|
    requires s.halves[h].head.Some? ==> s.halves[h].tail.Some?
    ensures var s' := LinkStep(s, t, h, m);
            OwnsOk(s'.threads[u], u, s'.place) && PcOk(s'.threads[u].pc, s'.next, s'.halves)
  {
    LinkOwns(s, t, h, m, u);
    LinkPc(s, t, h, m, u);
  }

  lemma LinkOwns(s: State, t: nat, h: nat, m: Msg, u: nat)
    requires Inv(s) && t < |s.threads| && s.threads[t].pc == AddLink(h, m) && h < 2 && u < |s.threads|
    requires s.halves[h].head.Some? ==> s.halves[h].tail.Some?
    ensures var s' := LinkStep(s, t, h, m); OwnsOk(s'.threads[u], u, s'.place)
  {
    AtThread(s, u);
    OnlyWith(s, t, m);
  }

  lemma LinkPc(s: State, t: nat, h: nat, m: Msg, u: nat)
    requires Inv(s) && t < |s.threads| && s.threads[t].pc == AddLink(h, m) && h < 2 && u < |s.threads|
    requires s.halves[h].head.Some? ==> s.halves[h].tail.Some?
    ensures var s' := LinkStep(s, t, h, m); PcOk(s'.threads[u].pc, s'.next, s'.halves)
  {
    if u != t {
      AtThread(s, t);
      AtThread(s, u);
      assert !Inside(s.threads[u].pc, h);
      LinkKeepsNull(s, t, h, m, u);
      PcElsewhere(s.threads[u].pc, s.next, s.halves, LinkStep(s, t, h, m).next, h, LinkStep(s, t, h, m).halves[h]);
    }
  }

  /** The message that another thread is about to link still ends in NULL. */
  lemma LinkKeepsNull(s: State, t: nat, h: nat, m: Msg, u: nat)
    requires Inv(s) && t < |s.threads| && s.threads[t].pc == AddLink(h, m) && h < 2 && u < |s.threads| && u != t
    requires s.halves[h].head.Some? ==> s.halves[h].tail.Some?
    ensures var pc, s' := s.threads[u].pc, LinkStep(s, t, h, m); pc.AddLink? ==> pc.m in s'.next && s'.next[pc.m] == None
  {
    AtThread(s, u);
    LinkTouchesOwnList(s, t, h, m);
    if s.halves[h].head.Some? {
      ListsApart(s, h, s.halves[h].tail.value);
      assert s.threads[u].pc.AddLink? ==> Has(s.threads[u], s.threads[u].pc.m);
    }
  }

  /** A change of half h leaves a thread outside its critical section where it was. */
  lemma PcElsewhere(pc: Pc, next: map<Msg, Ptr>, halves: seq<Half>, next': map<Msg, Ptr>, h: nat, half': Half)
    requires PcOk(pc, next, halves) && h < |halves| && !Inside(pc, h)
    requires pc.AddLink? ==> pc.m in next' && next'[pc.m] == None
    ensures PcOk(pc, next', halves[h := half'])
  {
  }

  lemma LinkPlaces(s: State, t: nat, h: nat, m: Msg, x: Msg)
    requires Inv(s) && t < |s.threads| && s.threads[t].pc == AddLink(h, m) && h < 2
    requires (s.halves[h].head.Some? ==> s.halves[h].tail.Some?) && x in LinkStep(s, t, h, m).place
    ensures var s' := LinkStep(s, t, h, m); PlaceOk(x, s'.place, s'.halves, s'.threads)
  {
    if x != m {
      assert PlaceOk(x, s.place, s.halves, s.threads);
    }
  }

  lemma LinkInv(s: State, t: nat, h: nat, m: Msg)
    requires Inv(s) && t < |s.threads| && s.threads[t].pc == AddLink(h, m) && h < 2
    requires s.halves[h].head.Some? ==> s.halves[h].tail.Some?
    ensures Inv(LinkStep(s, t, h, m))
  {
    LinkHalves(s, t, h, m);
    LinkThreads(s, t, h, m);
    LinkPool(s, t, h, m);
  }

  lemma LinkHalves(s: State, t: nat, h: nat, m: Msg)
    requires Inv(s) && t < |s.threads| && s.threads[t].pc == AddLink(h, m) && h < 2
    requires s.halves[h].head.Some? ==> s.halves[h].tail.Some?
    ensures HalvesOk(LinkStep(s, t, h, m))
  {
    LinkedHalf(s, t, h, m);
    LinkedOther(s, t, h, m);
    TwoHalves(LinkStep(s, t, h, m), h);
  }

  lemma LinkThreads(s: State, t: nat, h: nat, m: Msg)
    requires Inv(s) && t < |s.threads| && s.threads[t].pc == AddLink(h, m) && h < 2
    requires s.halves[h].head.Some? ==> s.halves[h].tail.Some?
    ensures ThreadsOk(LinkStep(s, t, h, m))
  {
    var s' := LinkStep(s, t, h, m);
    forall u | 0 <= u < |s'.threads|
      ensures OwnsOk(s'.threads[u], u, s'.place) && PcOk(s'.threads[u].pc, s'.next, s'.halves)
    {
      LinkOthers(s, t, h, m, u);
    }
  }

  lemma LinkPool(s: State, t: nat, h: nat, m: Msg)
    requires Inv(s) && t < |s.threads| && s.threads[t].pc == AddLink(h, m) && h < 2
    requires s.halves[h].head.Some? ==> s.halves[h].tail.Some?
    ensures PlacesOk(LinkStep(s, t, h, m))
  {
    var s' := LinkStep(s, t, h, m);
    OnlyWith(s, t, m);
    forall x | x in s'.place ensures PlaceOk(x, s'.place, s'.halves, s'.threads) {
      LinkPlaces(s, t, h, m, x);
    }
  }

  /** The half that RemoveUnlink changes. */
  lemma UnlinkedHalf(s: State, t: nat, h: nat, m: Msg)
    requires Inv(s) && t < |s.threads| && s.threads[t].pc == RemoveUnlink(h, m)
    ensures h < 2 && m in s.next && m in s.halves[h].list
    ensures var s' := UnlinkStep(s, t, h, m); HalfOk(s'.halves[h], s'.next, s'.place, s'.threads, h)
  {
    AtThread(s, t);
    var half := s.halves[h];
    assert HalfOk(half, s.next, s.place, s.threads, h);
    ShrunkList(half, s.next, s.place, h, t);
    var s' := UnlinkStep(s, t, h, m);
    CreditsUpdate(s.threads, t, s'.threads[t], h);
    MutexKept(s, t, s'.threads[t], h);
  }

  lemma UnlinkedOther(s: State, t: nat, h: nat, m: Msg)
    requires Inv(s) && t < |s.threads| && s.threads[t].pc == RemoveUnlink(h, m) && h < 2
    requires m in s.next && m in s.halves[h].list
    ensures var s' := UnlinkStep(s, t, h, m); HalfOk(s'.halves[1 - h], s'.next, s'.place, s'.threads, 1 - h)
  {
    ListsApart(s, h, m);
    OtherHalf(s, t, Thread(s.threads[t].held, RemoveUnlock(h, m)), 1 - h, s.next, s.place[m := With(t)]);
  }

  lemma UnlinkOthers(s: State, t: nat, h: nat, m: Msg, u: nat)
    requires Inv(s) && t < |s.threads| && s.threads[t].pc == RemoveUnlink(h, m) && h < 2 && u < |s.threads|
    requires m in s.next && m in s.halves[h].list
    ensures var s' := UnlinkStep(s, t, h, m);
            OwnsOk(s'.threads[u], u, s'.place) && PcOk(s'.threads[u].pc, s'.next, s'.halves)
  {
    UnlinkOwns(s, t, h, m, u);
    UnlinkPc(s, t, h, m, u);
  }

  lemma UnlinkOwns(s: State, t: nat, h: nat, m: Msg, u: nat)
    requires Inv(s) && t < |s.threads| && s.threads[t].pc == RemoveUnlink(h, m) && h < 2 && u < |s.threads|
    requires m in s.next && m in s.halves[h].list
    ensures var s' := UnlinkStep(s, t, h, m); OwnsOk(s'.threads[u], u, s'.place)
  {
    AtThread(s, u);
    ListsApart(s, h, m);
  }

  lemma UnlinkPc(s: State, t: nat, h: nat, m: Msg, u: nat)
    requires Inv(s) && t < |s.threads| && s.threads[t].pc == RemoveUnlink(h, m) && h < 2 && u < |s.threads|
    requires m in s.next && m in s.halves[h].list
    ensures var s' := UnlinkStep(s, t, h, m); PcOk(s'.threads[u].pc, s'.next, s'.halves)
  {
    AtThread(s, t);
    AtThread(s, u);
    if u != t {
      assert !Inside(s.threads[u].pc, h);
      PcElsewhere(s.threads[u].pc, s.next, s.halves, s.next, h, UnlinkStep(s, t, h, m).halves[h]);
    }
  }

  lemma UnlinkPlaces(s: State, t: nat, h: nat, m: Msg, x: Msg)
    requires Inv(s) && t < |s.threads| && s.threads[t].pc == RemoveUnlink(h, m) && h < 2
    requires m in s.next && m in s.halves[h].list && x in UnlinkStep(s, t, h, m).place
    ensures var s' := UnlinkStep(s, t, h, m); PlaceOk(x, s'.place, s'.halves, s'.threads)
  {
    if x != m {
      AtThread(s, t);
      assert PlaceOk(x, s.place, s.halves, s.threads);
      UnlinkPlace(s, t, h, m, x);
    }
  }

  lemma UnlinkPlace(s: State, t: nat, h: nat, m: Msg, x: Msg)
    requires t < |s.threads| && s.threads[t].pc == RemoveUnlink(h, m) && h < |s.halves|
    requires s.halves[h].list != [] && s.halves[h].list[0] == m && m in s.next
    requires x in s.place && x != m && PlaceOk(x, s.place, s.halves, s.threads)
    ensures var s' := UnlinkStep(s, t, h, m); PlaceOk(x, s'.place, s'.halves, s'.threads)
  {
    var s' := UnlinkStep(s, t, h, m);
    StillInRest(s.halves[h].list, x);
    PlaceKept(x, s.place, s.halves, s.threads, s'.place, s'.halves, s'.threads);
  }

  lemma StillInRest(list: seq<Msg>, x: Msg)
    requires list != []
    ensures x in list && x != list[0] ==> x in list[1..]
  {
    if x in list && x != list[0] {
      var i :| 0 <= i < |list| && list[i] == x;
      assert list[1..][i - 1] == x;
    }
  }

  lemma UnlinkInv(s: State, t: nat, h: nat, m: Msg)
    requires Inv(s) && t < |s.threads| && s.threads[t].pc == RemoveUnlink(h, m) && m in s.next
    ensures h < 2 && Inv(UnlinkStep(s, t, h, m))
  {
    UnlinkHalves(s, t, h, m);
    UnlinkThreads(s, t, h, m);
    UnlinkPool(s, t, h, m);
  }

  lemma UnlinkHalves(s: State, t: nat, h: nat, m: Msg)
    requires Inv(s) && t < |s.threads| && s.threads[t].pc == RemoveUnlink(h, m)
    ensures h < 2 && m in s.next && m in s.halves[h].list && HalvesOk(UnlinkStep(s, t, h, m))
  {
    UnlinkedHalf(s, t, h, m);
    UnlinkedOther(s, t, h, m);
    TwoHalves(UnlinkStep(s, t, h, m), h);
  }

  lemma UnlinkThreads(s: State, t: nat, h: nat, m: Msg)
    requires Inv(s) && t < |s.threads| && s.threads[t].pc == RemoveUnlink(h, m)
    requires h < 2 && m in s.next && m in s.halves[h].list
    ensures ThreadsOk(UnlinkStep(s, t, h, m))
  {
    var s' := UnlinkStep(s, t, h, m);
    forall u | 0 <= u < |s'.threads|
      ensures OwnsOk(s'.threads[u], u, s'.place) && PcOk(s'.threads[u].pc, s'.next, s'.halves)
    {
      UnlinkOthers(s, t, h, m, u);
    }
  }

  lemma UnlinkPool(s: State, t: nat, h: nat, m: Msg)
    requires Inv(s) && t < |s.threads| && s.threads[t].pc == RemoveUnlink(h, m)
    requires h < 2 && m in s.next && m in s.halves[h].list
    ensures PlacesOk(UnlinkStep(s, t, h, m))
  {
    var s' := UnlinkStep(s, t, h, m);
    ListsApart(s, h, m);
    forall x | x in s'.place ensures PlaceOk(x, s'.place, s'.halves, s'.threads) {
      UnlinkPlaces(s, t, h, m, x);
    }
  }

  lemma StepKeepsInv(s: State, t: nat)
    requires Inv(s) && Enabled(s, Step(t))
    ensures Inv(StepOf(s, t))
  {
    match s.threads[t].pc
    case AddLock(_, _) => LockKeepsInv(s, t);
    case RemoveLock(_) => LockKeepsInv(s, t);
    case AddUnlock(_) => LockKeepsInv(s, t);
    case AddClear(h, m) => ClearInv(s, t, h, m);
    case AddLink(h, m) => LinkInv(s, t, h, m);
    case AddTail(_, _) => AddTailKeepsInv(s, t);
    case RemoveRead(_) => RemoveReadKeepsInv(s, t);
    case RemoveUnlink(h, m) => UnlinkInv(s, t, h, m);
    case RemoveUnlock(_, _) => RemoveUnlockKeepsInv(s, t);
    case AddPost(_) => PostKeepsInv(s, t);
    case _ => WaitKeepsInv(s, t);
  }

  lemma ApplyKeepsInv(s: State, a: Action)
    requires Inv(s) && Enabled(s, a)
    ensures Inv(Apply(s, a))
  {
    match a
    case CallAdd(t, h, m) => CallAddKeepsInv(s, t, h, m);
    case CallRemove(t, h) => CallRemoveKeepsInv(s, t, RemoveWait(h));
    case CallRemoveTimed(t, h, limit) => CallRemoveKeepsInv(s, t, RemovePoll(h, 0, limit));
    case Give(t, u, m) => GiveInv(s, t, u, m);
    case Step(t) => StepKeepsInv(s, t);
  }

  // ---------- the pool at the start ----------

  /** The header of element i, Needed bytes apart. */
  function Header(i: nat, needed: nat): Msg {
    i * needed
  }

  lemma HeadersApart(i: nat, j: nat, needed: nat)
    requires i < j && needed > 0
    ensures Header(i, needed) < Header(j, needed)
  {
    MulAtLeast(j - i, needed);
    assert j * needed == i * needed + (j - i) * needed;
  }

  predicate HeadersOf(list: seq<Msg>, needed: nat) {
    forall k :: 0 <= k < |list| ==> list[k] == Header(k, needed)
  }

  lemma HeadersDistinct(list: seq<Msg>, needed: nat)
    requires HeadersOf(list, needed) && needed > 0
    ensures Distinct(list)
  {
    forall i, j | 0 <= i < j < |list| ensures list[i] != list[j] {
      HeadersApart(i, j, needed);
    }
  }

  lemma NextHeader(i: nat, needed: nat)
    ensures Header(i, needed) + needed == Header(i + 1, needed)
  {
  }

  /**
    The linking loop: every header but the last points to the one Needed bytes further.  It links
    one header even where there is none.
   */
  method LinkHeaders(elements: nat, needed: nat) returns (next: map<Msg, Ptr>, list: seq<Msg>)
    requires needed > 0
    ensures |list| == (if elements == 0 then 1 else elements) && HeadersOf(list, needed) && Distinct(list)
    ensures Chain(next, Some(0), list) && forall m :: m in next <==> m in list
  {
    next, list := map[], [];
    var curr: nat, i := 0, 1;
    while i < elements
      invariant 1 <= i && (i == 1 || i <= elements) && |list| == i - 1 && HeadersOf(list + [curr], needed)
      invariant forall m :: m in next <==> m in list
      invariant forall k :: 0 <= k < |list| ==> next[list[k]] == Some((list + [curr])[k + 1])
    {
      HeadersDistinct(list + [curr], needed);
      assert forall k :: 0 <= k < |list| ==> (list + [curr])[k] == list[k];
      assert (list + [curr])[|list|] == curr;
      NextHeader(i - 1, needed);
      next := next[curr := Some(curr + needed)];
      list := list + [curr];
      curr := curr + needed;
      i := i + 1;
    }
    HeadersDistinct(list + [curr], needed);
    assert forall k :: 0 <= k < |list| ==> (list + [curr])[k] == list[k];
    assert (list + [curr])[|list|] == curr;
    next := next[curr := None];
    list := list + [curr];
    forall k | 0 <= k < |list| ensures LinkOk(next, list, k) {
    }
    assert list[0] == 0;
  }

  /**
    message_init_generic: the headers form the free list, the queue is empty and nothing is in use.
    The pool is one in which every message has its token, and so keeps the invariant, if and only if
    there is an element at all.
   */
  method MessageInit(elements: nat, needed: nat, threadCount: nat) returns (s: State)
    requires needed > 0
    ensures |s.halves| == 2 && |s.halves[0].list| == (if elements == 0 then 1 else elements) && s.halves[0].sem == elements
    ensures HeadersOf(s.halves[0].list, needed) && Chain(s.next, s.halves[0].head, s.halves[0].list)
    ensures s.halves[1].list == [] && s.halves[1].sem == 0 && forall m :: m in s.place <==> m in s.halves[0].list
    ensures |s.threads| == threadCount && forall t :: 0 <= t < threadCount ==> Resting(s.threads[t])
    ensures (Initial(s) <==> elements >= 1) && (Inv(s) <==> elements >= 1)
  {
    var next, list := LinkHeaders(elements, needed);
    s := NewPool(next, list, elements, threadCount);
    PoolOfHeaders(next, list, elements, needed, threadCount);
  }

  lemma PoolOfHeaders(next: map<Msg, Ptr>, list: seq<Msg>, elements: nat, needed: nat, threadCount: nat)
    requires |list| == (if elements == 0 then 1 else elements) && HeadersOf(list, needed) && Distinct(list)
    requires Chain(next, Some(0), list) && forall m :: m in next <==> m in list
    ensures var s := NewPool(next, list, elements, threadCount);
            && Chain(s.next, s.halves[0].head, s.halves[0].list) && (forall m :: m in s.place <==> m in s.halves[0].list)
            && (Initial(s) <==> elements >= 1) && (Inv(s) <==> elements >= 1)
  {
    assert list[0] == 0;
    NewPoolIsInitial(next, list, elements, threadCount);
  }

  /** All messages in the free list, so many tokens, and threads that rest. */
  function NewPool(next: map<Msg, Ptr>, list: seq<Msg>, tokens: nat, threadCount: nat): State
    requires list != []
  {
    State(next,
          [Half(Some(list[0]), Some(list[|list| - 1]), tokens, None, list, list, []), Half(None, None, 0, None, [], [], [])],
          seq(threadCount, _ => Thread({}, Idle)), map m | m in next :: InList(0))
  }

  lemma NewPoolIsInitial(next: map<Msg, Ptr>, list: seq<Msg>, tokens: nat, threadCount: nat)
    requires list != [] && Distinct(list) && Chain(next, Some(list[0]), list) && forall m :: m in next <==> m in list
    ensures var s := NewPool(next, list, tokens, threadCount);
            (Initial(s) <==> tokens == |list|) && (Inv(s) <==> tokens == |list|)
  {
    var s := NewPool(next, list, tokens, threadCount);
    if tokens == |list| {
      FullPoolIsInitial(next, list, threadCount);
      InitInv(s);
    } else {
      TokensMissing(s);
    }
  }

  lemma FullPoolIsInitial(next: map<Msg, Ptr>, list: seq<Msg>, threadCount: nat)
    requires list != [] && Distinct(list) && Chain(next, Some(list[0]), list) && forall m :: m in next <==> m in list
    ensures Initial(NewPool(next, list, |list|, threadCount))
  {
    var s := NewPool(next, list, |list|, threadCount);
    assert NewHalf(s.halves[0], next);
    assert NewHalf(s.halves[1], next);
  }

  lemma TokensMissing(s: State)
    requires |s.halves| == 2 && s.halves[0].sem != |s.halves[0].list|
    requires forall t :: 0 <= t < |s.threads| ==> s.threads[t].pc.Idle?
    ensures !Inv(s) && !Initial(s)
  {
    NoCredits(s.threads, 0);
    assert !NewHalf(s.halves[0], s.next);
  }

  lemma {:induction false} NoCredits(ts: seq<Thread>, h: nat)
    requires forall t :: 0 <= t < |ts| ==> ts[t].pc.Idle?
    ensures Credits(ts, h) == 0
  {
    if ts != [] {
      NoCredits(ts[1..], h);
    }
  }

  predicate Resting(th: Thread) {
    th.pc.Idle? && th.held == {}
  }

  /** A half from which nothing was removed, with a token for each of its messages. */
  predicate NewHalf(half: Half, next: map<Msg, Ptr>) {
    && half.owner == None && half.removed == [] && half.linked == half.list && half.sem == |half.list|
    && Distinct(half.list) && Chain(next, half.head, half.list)
    && (half.list != [] ==> half.tail == Some(half.list[|half.list| - 1]))
  }

  ghost predicate Initial(s: State) {
    && |s.halves| == 2 && NewHalf(s.halves[0], s.next) && NewHalf(s.halves[1], s.next) && |s.halves[1].list| == 0
    && (forall m :: m in s.place <==> m in s.halves[0].list)
    && (forall m :: m in s.place ==> m in s.next && s.place[m] == InList(0))
    && (forall t :: 0 <= t < |s.threads| ==> Resting(s.threads[t]))
  }

  lemma InitHalf(half: Half, next: map<Msg, Ptr>, place: map<Msg, Place>, threads: seq<Thread>, h: nat)
    requires NewHalf(half, next) && forall m :: m in half.list ==> m in place && place[m] == InList(h)
    requires forall t :: 0 <= t < |threads| ==> Resting(threads[t])
    ensures HalfOk(half, next, place, threads, h)
  {
    NoCredits(threads, h);
  }

  lemma InitThreads(s: State)
    requires forall t :: 0 <= t < |s.threads| ==> Resting(s.threads[t])
    ensures ThreadsOk(s)
  {
    forall t | 0 <= t < |s.threads| ensures OwnsOk(s.threads[t], t, s.place) && PcOk(s.threads[t].pc, s.next, s.halves) {
      assert Resting(s.threads[t]);
    }
  }

  lemma InitHalves(s: State)
    requires Initial(s)
    ensures HalvesOk(s)
  {
    forall h | 0 <= h < 2 ensures HalfOk(s.halves[h], s.next, s.place, s.threads, h) {
      InitHalf(s.halves[h], s.next, s.place, s.threads, h);
    }
  }

  lemma InitInv(s: State)
    requires Initial(s)
    ensures Inv(s)
  {
    InitHalves(s);
    InitThreads(s);
  }

  // ---------- whole runs ----------

  ghost predicate Run(ss: seq<State>, acts: seq<Action>) {
    && |ss| == |acts| + 1 && Initial(ss[0])
    && forall k :: 0 <= k < |acts| ==> Enabled(ss[k], acts[k]) && ss[k + 1] == Apply(ss[k], acts[k])
  }

  /** The messages are the same from beginning to end. */
  lemma PoolIsFixed(s: State, a: Action)
    requires Inv(s) && Enabled(s, a)
    ensures forall m :: m in Apply(s, a).place <==> m in s.place
  {
    AtThread(s, a.t);
    if a.Give? {
      assert Has(s.threads[a.t], a.m);
    } else if a.Step? {
      var pc := s.threads[a.t].pc;
      if pc.AddLink? {
        assert Has(s.threads[a.t], pc.m);
      } else if pc.RemoveUnlink? {
        UnlinkedHalf(s, a.t, pc.h, pc.m);
        ListsApart(s, pc.h, pc.m);
      }
    }
  }

  lemma {:induction false} RunKeepsInv(ss: seq<State>, acts: seq<Action>, k: nat)
    requires Run(ss, acts) && k < |ss|
    ensures Inv(ss[k]) && forall m :: m in ss[k].place <==> m in ss[0].place
  {
    if k == 0 {
      InitInv(ss[0]);
    } else {
      RunKeepsInv(ss, acts, k - 1);
      ApplyKeepsInv(ss[k - 1], acts[k - 1]);
      PoolIsFixed(ss[k - 1], acts[k - 1]);
    }
  }

  /** The message is in exactly one list, or with exactly one thread, in its client's hand or its call. */
  ghost predicate InOnePlace(s: State, m: Msg)
    requires |s.halves| == 2
  {
    var free, queued := m in s.halves[0].list, m in s.halves[1].list;
    var taken := exists t :: 0 <= t < |s.threads| && Has(s.threads[t], m);
    && (free || queued || taken) && !(free && queued) && !(free && taken) && !(queued && taken)
    && (forall t, u :: 0 <= t < |s.threads| && 0 <= u < |s.threads| && Has(s.threads[t], m) && Has(s.threads[u], m) ==> t == u)
    && (forall t :: 0 <= t < |s.threads| && m in s.threads[t].held ==> !Carries(s.threads[t].pc, m))
  }

  lemma EachInOnePlace(s: State, m: Msg)
    requires Inv(s) && m in s.place
    ensures InOnePlace(s, m)
  {
    assert PlaceOk(m, s.place, s.halves, s.threads);
    forall t | 0 <= t < |s.threads| ensures OwnsOk(s.threads[t], t, s.place) {
      AtThread(s, t);
    }
    if m in s.halves[0].list {
      ListsApart(s, 0, m);
    } else if m in s.halves[1].list {
      ListsApart(s, 1, m);
    }
  }

  /**
    In every interleaving the free list, the queue, the calls in flight and the clients
    partition the original pool.
   */
  lemma PoolIsPartitioned(ss: seq<State>, acts: seq<Action>, k: nat)
    requires Run(ss, acts) && k < |ss|
    ensures |ss[k].halves| == 2 && forall m :: m in ss[0].place ==> InOnePlace(ss[k], m)
  {
    RunKeepsInv(ss, acts, k);
    forall m | m in ss[0].place ensures InOnePlace(ss[k], m) {
      EachInOnePlace(ss[k], m);
    }
  }

  /**
    In every interleaving a remover past the semaphore finds head set, so no step is stuck
    on a NULL pointer, and messages leave a list in the order in which they were linked.
   */
  lemma RemovalIsSafeAndInOrder(ss: seq<State>, acts: seq<Action>, k: nat)
    requires Run(ss, acts) && k < |ss|
    ensures |ss[k].halves| == 2
    ensures forall h :: 0 <= h < 2 ==>
              var half := ss[k].halves[h]; half.removed <= half.linked && half.linked == half.removed + half.list
    ensures forall t :: 0 <= t < |ss[k].threads| && ss[k].threads[t].pc.RemoveRead? ==>
              ss[k].threads[t].pc.h < 2 && ss[k].halves[ss[k].threads[t].pc.h].head.Some?
  {
    RunKeepsInv(ss, acts, k);
    var s := ss[k];
    forall h | 0 <= h < 2 ensures s.halves[h].linked == s.halves[h].removed + s.halves[h].list {
      assert HalfOk(s.halves[h], s.next, s.place, s.threads, h);
    }
    forall t | 0 <= t < |s.threads| && s.threads[t].pc.RemoveRead?
      ensures s.threads[t].pc.h < 2 && s.halves[s.threads[t].pc.h].head.Some?
    {
      RemoverFindsMessage(s, t);
    }
  }

  lemma PointersAreSet(s: State, t: nat)
    requires Inv(s) && t < |s.threads|
    requires var pc := s.threads[t].pc; !pc.Idle? && !pc.AddLock? && !pc.RemoveLock? && !pc.RemoveWait?
    ensures StepEnabled(s, s.threads[t].pc)
  {
    var pc := s.threads[t].pc;
    AtThread(s, t);
    assert HalfOk(s.halves[pc.h], s.next, s.place, s.threads, pc.h);
    if pc.AddClear? {
      assert Has(s.threads[t], pc.m);
    } else if pc.AddLink? {
      TailIsSet(s.halves[pc.h], s.next, s.place, s.threads, pc.h);
    } else if pc.RemoveRead? {
      RemoverFindsMessage(s, t);
    } else if pc.RemoveUnlink? {
      ListInNext(s.halves[pc.h], s.next, s.place, pc.h);
    }
  }

  lemma TailIsSet(half: Half, next: map<Msg, Ptr>, place: map<Msg, Place>, threads: seq<Thread>, h: nat)
    requires HalfOk(half, next, place, threads, h)
    requires half.owner.Some? && half.owner.value < |threads| && !threads[half.owner.value].pc.AddTail?
    ensures half.head.Some? ==> half.tail.Some? && half.tail.value in next
  {
    ListInNext(half, next, place, h);
  }

  /**
    In every interleaving a thread inside a call waits for nothing but a mutex or a semaphore: no
    step of it ever finds a pointer that it follows NULL or astray.
   */
  lemma OnlyLocksBlock(ss: seq<State>, acts: seq<Action>, k: nat, t: nat)
    requires Run(ss, acts) && k < |ss| && t < |ss[k].threads|
    requires var pc := ss[k].threads[t].pc; !pc.Idle? && !pc.AddLock? && !pc.RemoveLock? && !pc.RemoveWait?
    ensures |ss[k].halves| == 2 && StepEnabled(ss[k], ss[k].threads[t].pc)
  {
    RunKeepsInv(ss, acts, k);
    PointersAreSet(ss[k], t);
  }

  /** The semaphore, the credits in flight and the list always agree. */
  lemma TokensMatchMessages(ss: seq<State>, acts: seq<Action>, k: nat, h: nat)
    requires Run(ss, acts) && k < |ss| && h < 2
    ensures |ss[k].halves| == 2 && |ss[k].halves[h].list| == ss[k].halves[h].sem + Credits(ss[k].threads, h)
  {
    RunKeepsInv(ss, acts, k);
    assert HalfOk(ss[k].halves[h], ss[k].next, ss[k].place, ss[k].threads, h);
  }

  /**
    In every interleaving in which no thread can go on, every thread inside a call waits for a
    message: the mutexes never deadlock.
   */
  lemma NoDeadlock(ss: seq<State>, acts: seq<Action>, k: nat, t: nat)
    requires Run(ss, acts) && k < |ss| && t < |ss[k].threads|
    requires forall u :: 0 <= u < |ss[k].threads| ==> !Enabled(ss[k], Step(u))
    ensures var pc := ss[k].threads[t].pc;
            pc.Idle? || (pc.RemoveWait? && pc.h < |ss[k].halves| && ss[k].halves[pc.h].sem == 0)
  {
    var s := ss[k];
    RunKeepsInv(ss, acts, k);
    AtThread(s, t);
    var pc := s.threads[t].pc;
    assert !Enabled(s, Step(t));
    if pc.AddLock? || pc.RemoveLock? {
      OwnerCanGoOn(s, pc.h);
    } else if !pc.Idle? && !pc.RemoveWait? {
      PointersAreSet(s, t);
    }
  }

  /** A mutex that is held is held by a thread that can go on. */
  lemma OwnerCanGoOn(s: State, h: nat)
    requires Inv(s) && h < 2 && s.halves[h].owner.Some?
    ensures s.halves[h].owner.value < |s.threads| && Enabled(s, Step(s.halves[h].owner.value))
  {
    var u := s.halves[h].owner.value;
    assert HalfOk(s.halves[h], s.next, s.place, s.threads, h);
    assert Inside(s.threads[u].pc, h);
    PointersAreSet(s, u);
  }

  // ---------- timed waits ----------

  /** How many of the first n are true. */
  function Trues(own: seq<bool>, n: nat): nat
    requires n <= |own|
  {
    if n == 0 then 0 else Trues(own, n - 1) + if own[n - 1] then 1 else 0
  }

  /** The positions of a thread that polls in vain, and which of the actions between are its own. */
  predicate PollTrace(pcs: seq<Pc>, own: seq<bool>, h: nat, limit: nat) {
    && |pcs| == |own| + 1 && limit < UINT_VALUES && pcs[0] == RemovePoll(h, 0, limit)
    && forall i :: 0 <= i < |own| ==> PollNext(pcs[i], own[i], pcs[i + 1])
  }

  predicate PollNext(pc: Pc, own: bool, pc': Pc) {
    pc.RemovePoll? && pc' == if own then PollAgain(pc.h, pc.waited, pc.limit) else pc
  }

  lemma TenMore(n: nat)
    ensures (10 * n % UINT_VALUES + 10) % UINT_VALUES == 10 * (n + 1) % UINT_VALUES
  {
    var q := 10 * n / UINT_VALUES;
    DivShift(10 * n % UINT_VALUES + 10, UINT_VALUES, q);
  }

  /** A poll that is not the last leaves the counter below the limit, if the counter has not wrapped around. */
  lemma OnePollMore(h: nat, n: nat, limit: nat)
    requires limit < UINT_VALUES && (limit <= 0xffff_fffa ==> n <= limit / 10)
    ensures limit <= 0xffff_fffa && PollAgain(h, 10 * n % UINT_VALUES, limit).RemovePoll? ==> n + 1 <= limit / 10
    ensures limit <= 0xffff_fffa && PollAgain(h, 10 * n % UINT_VALUES, limit).Idle? ==> n == limit / 10
    ensures limit > 0xffff_fffa && PollAgain(h, 10 * n % UINT_VALUES, limit).Idle? ==> n > limit / 10
  {
  }

  /** The counter stands at ten for each poll so far, and within the limit. */
  lemma {:induction false} TimeCounted(pcs: seq<Pc>, own: seq<bool>, h: nat, limit: nat, i: nat)
    requires PollTrace(pcs, own, h, limit) && i < |own|
    ensures var n := Trues(own, i);
            pcs[i] == RemovePoll(h, 10 * n % UINT_VALUES, limit) && (limit <= 0xffff_fffa ==> n <= limit / 10)
  {
    assert PollNext(pcs[i], own[i], pcs[i + 1]);
    if i > 0 {
      TimeCounted(pcs, own, h, limit, i - 1);
      assert PollNext(pcs[i - 1], own[i - 1], pcs[i]);
      TenMore(Trues(own, i - 1));
      OnePollMore(h, Trues(own, i - 1), limit);
    }
  }

  /** The polls of a wait that gives up. */
  lemma PollsCounted(pcs: seq<Pc>, own: seq<bool>, h: nat, limit: nat)
    requires PollTrace(pcs, own, h, limit) && pcs[|own|].Idle?
    ensures if limit <= 0xffff_fffa then Trues(own, |own|) == limit / 10 + 1 else Trues(own, |own|) > limit / 10 + 1
  {
    var i := |own| - 1;
    TimeCounted(pcs, own, h, limit, i);
    assert PollNext(pcs[i], own[i], pcs[i + 1]);
    OnePollMore(h, Trues(own, i), limit);
  }

  /** Nobody else moves a thread that is inside a call. */
  lemma OthersLeavePc(s: State, a: Action, t: nat)
    requires Enabled(s, a) && a != Step(t) && t < |s.threads| && !s.threads[t].pc.Idle?
    ensures var s' := Apply(s, a); |s'.threads| == |s.threads| && s'.threads[t].pc == s.threads[t].pc
  {
    if a.Step? {
      StepMovesOne(s, a.t);
    }
  }

  lemma StepMovesOne(s: State, t: nat)
    requires t < |s.threads| && |s.halves| == 2 && StepEnabled(s, s.threads[t].pc)
    ensures StepOf(s, t).threads == s.threads[t := StepOf(s, t).threads[t]]
  {
  }

  /** A poll in vain: no token, and nothing of the pool is touched. */
  predicate InVain(s: State, s': State, t: nat, h: nat) {
    && h < |s.halves| && s.halves[h].sem == 0
    && t < |s.threads| && s' == s.(threads := s'.threads) && |s'.threads| == |s.threads|
    && forall u :: 0 <= u < |s.threads| && u != t ==> s'.threads[u] == s.threads[u]
  }

  lemma PollInVain(s: State, t: nat, h: nat, waited: nat, limit: nat)
    requires Enabled(s, Step(t)) && s.threads[t].pc == RemovePoll(h, waited, limit)
    requires !StepOf(s, t).threads[t].pc.RemoveLock?
    ensures InVain(s, StepOf(s, t), t, h) && StepOf(s, t).threads[t].pc == PollAgain(h, waited, limit)
  {
  }

  /** One action of a run, for a thread that polls and gets no token. */
  lemma PollStep(s: State, a: Action, s': State, t: nat, h: nat, waited: nat, limit: nat)
    requires Enabled(s, a) && s' == Apply(s, a) && t < |s.threads| && s.threads[t].pc == RemovePoll(h, waited, limit)
    requires t < |s'.threads| && !s'.threads[t].pc.RemoveLock?
    ensures a == Step(t) ==> InVain(s, s', t, h) && s'.threads[t].pc == PollAgain(h, waited, limit)
    ensures a != Step(t) ==> s'.threads[t].pc == s.threads[t].pc
  {
    if a == Step(t) {
      PollInVain(s, t, h, waited, limit);
    } else {
      OthersLeavePc(s, a, t);
    }
  }

  lemma PollStepOfRun(ss: seq<State>, acts: seq<Action>, i: nat, t: nat, h: nat, waited: nat, limit: nat)
    requires Run(ss, acts) && i < |acts| && t < |ss[i].threads| && ss[i].threads[t].pc == RemovePoll(h, waited, limit)
    requires t < |ss[i + 1].threads| && !ss[i + 1].threads[t].pc.RemoveLock?
    ensures acts[i] == Step(t) ==> InVain(ss[i], ss[i + 1], t, h) && ss[i + 1].threads[t].pc == PollAgain(h, waited, limit)
    ensures acts[i] != Step(t) ==> ss[i + 1].threads[t].pc == ss[i].threads[t].pc
  {
    PollStep(ss[i], acts[i], ss[i + 1], t, h, waited, limit);
  }

  /** The call itself. */
  lemma PollStarts(ss: seq<State>, acts: seq<Action>, j: nat, t: nat, h: nat, limit: nat)
    requires Run(ss, acts) && j < |acts| && acts[j] == CallRemoveTimed(t, h, limit)
    ensures limit < UINT_VALUES && t < |ss[j + 1].threads| && ss[j + 1].threads[t].pc == RemovePoll(h, 0, limit)
  {
    assert Enabled(ss[j], acts[j]) && ss[j + 1] == Apply(ss[j], acts[j]);
  }

  /** A call to the timed remove at action j whose thread polls until it is idle again at state k. */
  ghost predicate GivesUp(ss: seq<State>, acts: seq<Action>, j: nat, k: nat, t: nat, h: nat, limit: nat)
    requires Run(ss, acts)
  {
    && j < k < |ss| && acts[j] == CallRemoveTimed(t, h, limit)
    && (forall i :: j < i < k ==> t < |ss[i].threads| && ss[i].threads[t].pc.RemovePoll?)
    && t < |ss[k].threads| && ss[k].threads[t].pc.Idle?
  }

  /** The actions of a run from j on to k that are steps of thread t. */
  function OwnSteps(acts: seq<Action>, t: nat, j: nat, k: nat): seq<bool>
    requires j <= k <= |acts|
  {
    seq(k - j, i requires 0 <= i < k - j => acts[j + i] == Step(t))
  }

  /** The position of a thread. */
  function PcOf(s: State, t: nat): Pc {
    if t < |s.threads| then s.threads[t].pc else Idle
  }

  function PcsOf(ss: seq<State>, t: nat, i: nat, k: nat): seq<Pc>
    requires i <= k < |ss|
  {
    seq(k + 1 - i, l requires 0 <= l < k + 1 - i => PcOf(ss[i + l], t))
  }

  /** From state i to state k the thread does nothing but poll in vain. */
  ghost predicate OnlyPolls(ss: seq<State>, acts: seq<Action>, t: nat, i: nat, k: nat) {
    && i <= k < |ss| && k <= |acts|
    && forall l :: i <= l < k ==> PollNext(PcOf(ss[l], t), acts[l] == Step(t), PcOf(ss[l + 1], t))
  }

  lemma PollsAreTrace(ss: seq<State>, acts: seq<Action>, t: nat, i: nat, k: nat, h: nat, limit: nat)
    requires OnlyPolls(ss, acts, t, i, k) && PcOf(ss[i], t) == RemovePoll(h, 0, limit) && limit < UINT_VALUES
    ensures PollTrace(PcsOf(ss, t, i, k), OwnSteps(acts, t, i, k), h, limit)
  {
    var pcs, own := PcsOf(ss, t, i, k), OwnSteps(acts, t, i, k);
    forall l | 0 <= l < |own| ensures PollNext(pcs[l], own[l], pcs[l + 1]) {
      assert PollNext(PcOf(ss[i + l], t), acts[i + l] == Step(t), PcOf(ss[i + l + 1], t));
    }
  }

  lemma EachInVain(ss: seq<State>, acts: seq<Action>, j: nat, k: nat, t: nat, h: nat, limit: nat, i: nat)
    requires Run(ss, acts) && GivesUp(ss, acts, j, k, t, h, limit) && j < i < k
    ensures PollNext(PcOf(ss[i], t), acts[i] == Step(t), PcOf(ss[i + 1], t))
    ensures acts[i] == Step(t) ==> InVain(ss[i], ss[i + 1], t, PcOf(ss[i], t).h)
  {
    var pc := ss[i].threads[t].pc;
    PollStepOfRun(ss, acts, i, t, pc.h, pc.waited, pc.limit);
  }

  lemma GivesUpPolling(ss: seq<State>, acts: seq<Action>, j: nat, k: nat, t: nat, h: nat, limit: nat)
    requires Run(ss, acts) && GivesUp(ss, acts, j, k, t, h, limit)
    ensures OnlyPolls(ss, acts, t, j + 1, k) && PcOf(ss[j + 1], t) == RemovePoll(h, 0, limit) && limit < UINT_VALUES
    ensures PcOf(ss[k], t).Idle?
    ensures forall i :: j < i < k && acts[i] == Step(t) ==> InVain(ss[i], ss[i + 1], t, PcOf(ss[i], t).h)
  {
    PollStarts(ss, acts, j, t, h, limit);
    forall i | j < i < k
      ensures PollNext(PcOf(ss[i], t), acts[i] == Step(t), PcOf(ss[i + 1], t))
      ensures acts[i] == Step(t) ==> InVain(ss[i], ss[i + 1], t, PcOf(ss[i], t).h)
    {
      EachInVain(ss, acts, j, k, t, h, limit, i);
    }
  }

  /** The same half is polled all the time, and so often. */
  lemma PollsOfOneHalf(ss: seq<State>, acts: seq<Action>, t: nat, i: nat, k: nat, h: nat, limit: nat)
    requires OnlyPolls(ss, acts, t, i, k) && PcOf(ss[i], t) == RemovePoll(h, 0, limit) && limit < UINT_VALUES
    requires PcOf(ss[k], t).Idle?
    ensures forall l :: i <= l < k ==> PcOf(ss[l], t).RemovePoll? && PcOf(ss[l], t).h == h
    ensures var polls := Trues(OwnSteps(acts, t, i, k), k - i);
            if limit <= 0xffff_fffa then polls == limit / 10 + 1 else polls > limit / 10 + 1
  {
    var pcs, own := PcsOf(ss, t, i, k), OwnSteps(acts, t, i, k);
    PollsAreTrace(ss, acts, t, i, k, h, limit);
    PollsCounted(pcs, own, h, limit);
    forall l | i <= l < k ensures PcOf(ss[l], t).RemovePoll? && PcOf(ss[l], t).h == h {
      TimeCounted(pcs, own, h, limit, l - i);
      assert pcs[l - i] == PcOf(ss[l], t);
    }
  }

  /**
    In every interleaving a timed remove that gives up has found no token at any of its polls and
    touched nothing of the pool, and it polled limit / 10 + 1 times; only for the five longest limits,
    at which the counter wraps around, it polled more often.
   */
  lemma TimedOutTakesNothing(ss: seq<State>, acts: seq<Action>, j: nat, k: nat, t: nat, h: nat, limit: nat)
    requires Run(ss, acts) && GivesUp(ss, acts, j, k, t, h, limit)
    ensures forall i :: j < i < k && acts[i] == Step(t) ==> InVain(ss[i], ss[i + 1], t, h)
    ensures var polls := Trues(OwnSteps(acts, t, j + 1, k), k - j - 1);
            if limit <= 0xffff_fffa then polls == limit / 10 + 1 else polls > limit / 10 + 1
  {
    GivesUpPolling(ss, acts, j, k, t, h, limit);
    PollsOfOneHalf(ss, acts, t, j + 1, k, h, limit);
  }

  // ---------- what a call has done when it returns ----------

  /** How far a call is: before or after the one step in which it changes a list. */
  datatype Stage =
    | Out
    | Adding(h: nat, m: Msg)
    | Added(h: nat)
    | Polling(h: nat)
    | Taking(h: nat)
    | Took(h: nat, m: Msg)

  function StageOf(pc: Pc): Stage {
    match pc
    case Idle => Out
    case AddLock(h, m) => Adding(h, m)
    case AddClear(h, m) => Adding(h, m)
    case AddLink(h, m) => Adding(h, m)
    case AddTail(h, _) => Added(h)
    case AddUnlock(h) => Added(h)
    case AddPost(h) => Added(h)
    case RemovePoll(h, _, _) => Polling(h)
    case RemoveWait(h) => Taking(h)
    case RemoveLock(h) => Taking(h)
    case RemoveRead(h) => Taking(h)
    case RemoveUnlink(h, _) => Taking(h)
    case RemoveUnlock(h, m) => Took(h, m)
  }

  predicate SameHistory(a: Half, b: Half) {
    b.list == a.list && b.linked == a.linked && b.removed == a.removed
  }

  /** No list changes. */
  predicate Untouched(s: State, s': State) {
    |s.halves| == |s'.halves| == 2 && SameHistory(s.halves[0], s'.halves[0]) && SameHistory(s.halves[1], s'.halves[1])
  }

  /** m is appended to the list of half h, and the other list stays. */
  predicate Appends(s: State, s': State, h: nat, m: Msg) {
    && |s.halves| == |s'.halves| == 2 && h < 2 && SameHistory(s.halves[1 - h], s'.halves[1 - h])
    && SameHistory(s.halves[h].(list := s.halves[h].list + [m], linked := s.halves[h].linked + [m]), s'.halves[h])
  }

  /** m leaves the list of half h, of which it was the first, and the other list stays. */
  predicate TakesFirst(s: State, s': State, h: nat, m: Msg) {
    && |s.halves| == |s'.halves| == 2 && h < 2 && SameHistory(s.halves[1 - h], s'.halves[1 - h])
    && s.halves[h].list != [] && s.halves[h].list[0] == m
    && SameHistory(s.halves[h].(list := s.halves[h].list[1..], removed := s.halves[h].removed + [m]), s'.halves[h])
  }

  /** One step of a call, of the thread's own. */
  predicate Proceeds(s: State, s': State, a: Stage, b: Stage, held: set<Msg>) {
    match a
    case Out => false
    case Adding(h, m) => (Untouched(s, s') && b == a) || (Appends(s, s', h, m) && b == Added(h))
    case Added(h) => Untouched(s, s') && (b == a || b == Out)
    case Polling(h) => Untouched(s, s') && (b == a || b == Taking(h) || b == Out)
    case Taking(h) => (Untouched(s, s') && b == a) || (b.Took? && b.h == h && TakesFirst(s, s', h, b.m))
    case Took(h, m) => Untouched(s, s') && b == Out && m in held
  }

  /** A step of thread t, from its stage before to the one after. */
  ghost predicate ProceedsTo(s: State, s': State, t: nat) {
    && t < |s.threads| && t < |s'.threads|
    && Proceeds(s, s', StageOf(s.threads[t].pc), StageOf(s'.threads[t].pc), s'.threads[t].held)
  }

  lemma LinkProceeds(s: State, t: nat)
    requires t < |s.threads| && |s.halves| == 2 && StepEnabled(s, s.threads[t].pc) && s.threads[t].pc.AddLink?
    ensures ProceedsTo(s, StepOf(s, t), t)
  {
  }

  lemma UnlinkProceeds(s: State, t: nat)
    requires t < |s.threads| && |s.halves| == 2 && StepEnabled(s, s.threads[t].pc) && s.threads[t].pc.RemoveUnlink?
    requires PcOk(s.threads[t].pc, s.next, s.halves)
    ensures ProceedsTo(s, StepOf(s, t), t)
  {
  }

  lemma AddProceeds(s: State, t: nat)
    requires t < |s.threads| && |s.halves| == 2 && StepEnabled(s, s.threads[t].pc) && !s.threads[t].pc.AddLink?
    requires StageOf(s.threads[t].pc).Adding? || StageOf(s.threads[t].pc).Added?
    ensures ProceedsTo(s, StepOf(s, t), t)
  {
  }

  lemma RemoveProceeds(s: State, t: nat)
    requires t < |s.threads| && |s.halves| == 2 && StepEnabled(s, s.threads[t].pc) && !s.threads[t].pc.RemoveUnlink?
    requires !StageOf(s.threads[t].pc).Adding? && !StageOf(s.threads[t].pc).Added?
    ensures ProceedsTo(s, StepOf(s, t), t)
  {
  }

  lemma StepProceeds(s: State, t: nat)
    requires Inv(s) && Enabled(s, Step(t))
    ensures ProceedsTo(s, StepOf(s, t), t)
  {
    var pc := s.threads[t].pc;
    if pc.AddLink? {
      LinkProceeds(s, t);
    } else if pc.RemoveUnlink? {
      AtThread(s, t);
      UnlinkProceeds(s, t);
    } else if StageOf(pc).Adding? || StageOf(pc).Added? {
      AddProceeds(s, t);
    } else {
      RemoveProceeds(s, t);
    }
  }

  /** Action x of a run as thread t, inside a call, sees it. */
  ghost predicate Watches(ss: seq<State>, acts: seq<Action>, t: nat, x: nat) {
    && x < |acts| && x + 1 < |ss| && t < |ss[x].threads| && t < |ss[x + 1].threads| && !ss[x].threads[t].pc.Idle?
    && if acts[x] == Step(t) then ProceedsTo(ss[x], ss[x + 1], t)
       else StageOf(ss[x + 1].threads[t].pc) == StageOf(ss[x].threads[t].pc)
  }

  lemma StepIsWatched(ss: seq<State>, acts: seq<Action>, t: nat, x: nat)
    requires Run(ss, acts) && x < |acts| && t < |ss[x].threads| && !ss[x].threads[t].pc.Idle?
    ensures Watches(ss, acts, t, x)
  {
    RunKeepsInv(ss, acts, x);
    if acts[x] == Step(t) {
      StepProceeds(ss[x], t);
    } else {
      OthersLeavePc(ss[x], acts[x], t);
    }
  }

  /** Action x, if it is a step of thread t, changes no list. */
  ghost predicate Passes(ss: seq<State>, acts: seq<Action>, t: nat, x: nat) {
    x < |acts| && x + 1 < |ss| && (acts[x] == Step(t) ==> Untouched(ss[x], ss[x + 1]))
  }

  ghost predicate NothingDone(ss: seq<State>, acts: seq<Action>, t: nat, j: nat, k: nat) {
    forall x :: j < x < k ==> Passes(ss, acts, t, x)
  }

  /** Of the steps of thread t between j and k, step i alone may change a list. */
  ghost predicate OnlyStep(ss: seq<State>, acts: seq<Action>, t: nat, j: nat, k: nat, i: nat) {
    && j < i < k && i < |acts| && i + 1 < |ss| && acts[i] == Step(t)
    && forall x :: j < x < k && x != i ==> Passes(ss, acts, t, x)
  }

  ghost predicate HasLinked(ss: seq<State>, acts: seq<Action>, t: nat, j: nat, k: nat, h: nat, m: Msg) {
    exists i: nat :: OnlyStep(ss, acts, t, j, k, i) && Appends(ss[i], ss[i + 1], h, m)
  }

  ghost predicate HasTaken(ss: seq<State>, acts: seq<Action>, t: nat, j: nat, k: nat, h: nat, m: Msg) {
    exists i: nat :: OnlyStep(ss, acts, t, j, k, i) && TakesFirst(ss[i], ss[i + 1], h, m)
  }

  predicate RemovesFrom(a: Action, t: nat, h: nat) {
    (a.CallRemove? || a.CallRemoveTimed?) && a.t == t && a.h == h
  }

  /** What thread t has done of its call at j when it is at a stage in state k. */
  ghost predicate SoFar(ss: seq<State>, acts: seq<Action>, t: nat, j: nat, k: nat, stage: Stage, held: set<Msg>)
    requires j < |acts|
  {
    match stage
    case Adding(h, m) => acts[j] == CallAdd(t, h, m) && NothingDone(ss, acts, t, j, k)
    case Added(h) => acts[j].CallAdd? && acts[j].t == t && acts[j].h == h && HasLinked(ss, acts, t, j, k, h, acts[j].m)
    case Polling(h) => acts[j].CallRemoveTimed? && acts[j].t == t && acts[j].h == h && NothingDone(ss, acts, t, j, k)
    case Taking(h) => RemovesFrom(acts[j], t, h) && NothingDone(ss, acts, t, j, k)
    case Took(h, m) => RemovesFrom(acts[j], t, h) && HasTaken(ss, acts, t, j, k, h, m)
    case Out =>
      || (acts[j].CallAdd? && acts[j].t == t && HasLinked(ss, acts, t, j, k, acts[j].h, acts[j].m))
      || (acts[j].CallRemoveTimed? && acts[j].t == t && NothingDone(ss, acts, t, j, k))
      || (exists h, m :: RemovesFrom(acts[j], t, h) && HasTaken(ss, acts, t, j, k, h, m) && m in held)
  }

  /** One more action that changes no list. */
  lemma PassesOn(ss: seq<State>, acts: seq<Action>, t: nat, j: nat, k: nat)
    requires j < k && Passes(ss, acts, t, k)
    ensures NothingDone(ss, acts, t, j, k) ==> NothingDone(ss, acts, t, j, k + 1)
    ensures forall h, m :: HasLinked(ss, acts, t, j, k, h, m) ==> HasLinked(ss, acts, t, j, k + 1, h, m)
    ensures forall h, m :: HasTaken(ss, acts, t, j, k, h, m) ==> HasTaken(ss, acts, t, j, k + 1, h, m)
  {
    forall h, m | HasLinked(ss, acts, t, j, k, h, m) ensures HasLinked(ss, acts, t, j, k + 1, h, m) {
      var i: nat :| OnlyStep(ss, acts, t, j, k, i) && Appends(ss[i], ss[i + 1], h, m);
      assert OnlyStep(ss, acts, t, j, k + 1, i);
    }
    forall h, m | HasTaken(ss, acts, t, j, k, h, m) ensures HasTaken(ss, acts, t, j, k + 1, h, m) {
      var i: nat :| OnlyStep(ss, acts, t, j, k, i) && TakesFirst(ss[i], ss[i + 1], h, m);
      assert OnlyStep(ss, acts, t, j, k + 1, i);
    }
  }

  /** The one step that does change a list. */
  lemma StepDone(ss: seq<State>, acts: seq<Action>, t: nat, j: nat, k: nat)
    requires j < k < |acts| && k + 1 < |ss| && acts[k] == Step(t) && NothingDone(ss, acts, t, j, k)
    ensures OnlyStep(ss, acts, t, j, k + 1, k)
  {
  }

  lemma SoFarStep(ss: seq<State>, acts: seq<Action>, t: nat, j: nat, k: nat)
    requires j < k && Watches(ss, acts, t, k)
    requires SoFar(ss, acts, t, j, k, StageOf(ss[k].threads[t].pc), ss[k].threads[t].held)
    ensures SoFar(ss, acts, t, j, k + 1, StageOf(ss[k + 1].threads[t].pc), ss[k + 1].threads[t].held)
  {
    if Passes(ss, acts, t, k) {
      PassesOn(ss, acts, t, j, k);
    } else {
      StepDone(ss, acts, t, j, k);
    }
  }

  /** Action j is a call of thread t that has not returned before state k. */
  predicate InCall(ss: seq<State>, acts: seq<Action>, j: nat, k: nat, t: nat) {
    && j < k < |ss| && j < |acts| && !acts[j].Step? && !acts[j].Give? && acts[j].t == t
    && (forall x :: j < x < k ==> t < |ss[x].threads| && !ss[x].threads[t].pc.Idle?)
  }

  lemma CallStarts(ss: seq<State>, acts: seq<Action>, j: nat, t: nat)
    requires Run(ss, acts) && j < |acts| && !acts[j].Step? && !acts[j].Give? && acts[j].t == t
    ensures t < |ss[j + 1].threads|
    ensures SoFar(ss, acts, t, j, j + 1, StageOf(ss[j + 1].threads[t].pc), ss[j + 1].threads[t].held)
  {
    assert Enabled(ss[j], acts[j]) && ss[j + 1] == Apply(ss[j], acts[j]);
  }

  lemma {:induction false} CallSoFar(ss: seq<State>, acts: seq<Action>, t: nat, j: nat, k: nat)
    requires j < k < |ss| && j < |acts| && t < |ss[j + 1].threads|
    requires forall x :: j < x < k ==> Watches(ss, acts, t, x)
    requires SoFar(ss, acts, t, j, j + 1, StageOf(ss[j + 1].threads[t].pc), ss[j + 1].threads[t].held)
    ensures t < |ss[k].threads| && SoFar(ss, acts, t, j, k, StageOf(ss[k].threads[t].pc), ss[k].threads[t].held)
    decreases k
  {
    if k > j + 1 {
      CallSoFar(ss, acts, t, j, k - 1);
      assert Watches(ss, acts, t, k - 1);
      SoFarStep(ss, acts, t, j, k - 1);
    }
  }

  lemma CallDone(ss: seq<State>, acts: seq<Action>, j: nat, k: nat, t: nat)
    requires Run(ss, acts) && InCall(ss, acts, j, k, t)
    ensures t < |ss[k].threads| && SoFar(ss, acts, t, j, k, StageOf(ss[k].threads[t].pc), ss[k].threads[t].held)
  {
    CallStarts(ss, acts, j, t);
    forall x | j < x < k ensures Watches(ss, acts, t, x) {
      StepIsWatched(ss, acts, t, x);
    }
    CallSoFar(ss, acts, t, j, k);
  }

  /**
    In every interleaving a finished add on half h has, in exactly one of its steps, appended its message
    to the list of that half, and changed no list otherwise.
   */
  lemma FinishedAddHasLinked(ss: seq<State>, acts: seq<Action>, j: nat, k: nat, t: nat, h: nat, m: Msg)
    requires Run(ss, acts) && InCall(ss, acts, j, k, t) && acts[j] == CallAdd(t, h, m)
    requires t < |ss[k].threads| && ss[k].threads[t].pc.Idle?
    ensures HasLinked(ss, acts, t, j, k, h, m)
  {
    CallDone(ss, acts, j, k, t);
  }

  /**
    In every interleaving a finished remove on half h has, in exactly one of its steps, taken the first
    message off the list of that half, and its client has that message; a timed remove has done so or
    changed no list at all.
   */
  lemma FinishedRemoveHasTaken(ss: seq<State>, acts: seq<Action>, j: nat, k: nat, t: nat, h: nat)
    requires Run(ss, acts) && InCall(ss, acts, j, k, t) && RemovesFrom(acts[j], t, h)
    requires t < |ss[k].threads| && ss[k].threads[t].pc.Idle?
    ensures || (exists m :: HasTaken(ss, acts, t, j, k, h, m) && m in ss[k].threads[t].held)
            || (acts[j].CallRemoveTimed? && NothingDone(ss, acts, t, j, k))
  {
    CallDone(ss, acts, j, k, t);
  }

  // ---------- progress ----------

  /** The steps that a call still needs, apart from polls in vain. */
  function StepsLeft(pc: Pc): nat {
    match pc
    case Idle => 0
    case AddLock(_, _) => 6
    case AddClear(_, _) => 5
    case AddLink(_, _) => 4
    case AddTail(_, _) => 3
    case AddUnlock(_) => 2
    case AddPost(_) => 1
    case RemoveWait(_) => 5
    case RemovePoll(_, _, _) => 5
    case RemoveLock(_) => 4
    case RemoveRead(_) => 3
    case RemoveUnlink(_, _) => 2
    case RemoveUnlock(_, _) => 1
  }

  /** A step of its own brings a thread nearer to the end of its call, unless it polls. */
  predicate Nearer(pc: Pc, pc': Pc, own: bool) {
    if !own then pc' == pc
    else if pc.RemovePoll? then StepsLeft(pc') <= 5
    else StepsLeft(pc') < StepsLeft(pc) && !pc'.RemovePoll?
  }

  lemma StepIsNearer(s: State, t: nat)
    requires t < |s.threads| && |s.halves| == 2 && StepEnabled(s, s.threads[t].pc)
    ensures t < |StepOf(s, t).threads| && Nearer(s.threads[t].pc, StepOf(s, t).threads[t].pc, true)
  {
  }

  ghost predicate ComesNearer(ss: seq<State>, acts: seq<Action>, t: nat, x: nat) {
    x < |acts| && x + 1 < |ss| && Nearer(PcOf(ss[x], t), PcOf(ss[x + 1], t), acts[x] == Step(t))
  }

  lemma RunComesNearer(ss: seq<State>, acts: seq<Action>, t: nat, x: nat)
    requires Run(ss, acts) && x < |acts| && t < |ss[x].threads| && !ss[x].threads[t].pc.Idle?
    ensures ComesNearer(ss, acts, t, x)
  {
    if acts[x] == Step(t) {
      StepIsNearer(ss[x], t);
    } else {
      OthersLeavePc(ss[x], acts[x], t);
    }
  }

  /** The steps of thread t from state j to state k that are not polls. */
  function Steps(ss: seq<State>, acts: seq<Action>, t: nat, j: nat, k: nat): nat
    requires j <= k < |ss| && k <= |acts|
  {
    if j == k then 0
    else Steps(ss, acts, t, j, k - 1) + if acts[k - 1] == Step(t) && !PcOf(ss[k - 1], t).RemovePoll? then 1 else 0
  }

  lemma {:induction false} StepsAdd(ss: seq<State>, acts: seq<Action>, t: nat, j: nat, k: nat)
    requires j <= k < |ss| && k <= |acts| && forall x :: j <= x < k ==> ComesNearer(ss, acts, t, x)
    ensures Steps(ss, acts, t, j, k) + StepsLeft(PcOf(ss[k], t)) <= 6
    ensures PcOf(ss[k], t).RemovePoll? ==> Steps(ss, acts, t, j, k) == 0
    decreases k
  {
    if j < k {
      StepsAdd(ss, acts, t, j, k - 1);
      assert ComesNearer(ss, acts, t, k - 1);
    }
  }

  /** In every interleaving a call takes at most six steps, apart from polls in vain. */
  lemma CallsAreShort(ss: seq<State>, acts: seq<Action>, j: nat, k: nat, t: nat)
    requires Run(ss, acts) && InCall(ss, acts, j, k, t)
    ensures Steps(ss, acts, t, j + 1, k) <= 6
  {
    forall x | j + 1 <= x < k ensures ComesNearer(ss, acts, t, x) {
      RunComesNearer(ss, acts, t, x);
    }
    StepsAdd(ss, acts, t, j + 1, k);
  }

  // ---------- why a wait must not be interrupted ----------

  /**
    sem_wait returns early on a signal, and the remover does not look.  It would then go on without a
    token, and find head NULL if and only if the list is empty.
   */
  lemma InterruptedWait(s: State, t: nat, h: nat)
    requires Inv(s) && t < |s.threads| && h < 2 && s.threads[t].pc == RemoveWait(h) && s.halves[h].owner.None?
    ensures var s1 := Go(s, t, RemoveLock(h));
            StepEnabled(s1, s1.threads[t].pc) &&
            var s2 := StepOf(s1, t);
            s2.threads[t].pc == RemoveRead(h) && (s2.halves[h].head.None? <==> s.halves[h].list == [])
  {
    assert HalfOk(s.halves[h], s.next, s.place, s.threads, h);
  }
}
