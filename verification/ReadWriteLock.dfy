/**
 The writer-preferring read-write lock of src/utils/cpputils/read_write_lock.cc.

 Every critical section (the code a thread runs between taking the inner mutex and
 either blocking on a condition variable or releasing the mutex) is one atomic step.
 Any number of threads interleave; `notify_one` wakes an arbitrary sleeper and a
 sleeper may wake spuriously at any time.
 */
module ReadWriteLock {

  /** Threads are numbered; `phase[t]` is where thread t stands with respect to the lock.
      A waiter that is awake has left the condition variable but has not yet re-tested its
      wait predicate. */
  type Tid = nat

  datatype Phase = Idle | WaitRead(awake: bool) | WaitWrite(awake: bool) | Reading | Writing

  datatype Kind = KIdle | KWaitRead | KWaitWrite | KReading | KWriting

  function KindOf(p: Phase): Kind {
    match p
    case Idle => KIdle
    case WaitRead(_) => KWaitRead
    case WaitWrite(_) => KWaitWrite
    case Reading => KReading
    case Writing => KWriting
  }

  /** The three counters of the lock, and the phase of every thread of the program. */
  datatype State = State(status: int, waitingReaders: int, waitingWriters: int, phase: seq<Phase>)

  /** How many threads are in a phase of kind k. */
  function Count(phase: seq<Phase>, k: Kind): nat {
    if phase == [] then 0
    else Count(phase[..|phase| - 1], k) + (if KindOf(phase[|phase| - 1]) == k then 1 else 0)
  }

  function Waiting(s: State): nat { Count(s.phase, KWaitRead) + Count(s.phase, KWaitWrite) }
  function Holding(s: State): nat { Count(s.phase, KReading) + Count(s.phase, KWriting) }

  /** The predicates passed to the two condition variables. */
  predicate MayRead(s: State) { s.waitingWriters == 0 && s.status >= 0 }
  predicate MayWrite(s: State) { s.status == 0 }

  // ----- the atomic steps

  /** One turn of the predicate-guarded wait of `rdlock`. */
  function TryRead(s: State, t: Tid): State
    requires t < |s.phase|
  {
    if MayRead(s)
    then s.(waitingReaders := s.waitingReaders - 1, status := s.status + 1, phase := s.phase[t := Reading])
    else s.(phase := s.phase[t := WaitRead(false)])
  }

  /** One turn of the predicate-guarded wait of `wrlock`. */
  function TryWrite(s: State, t: Tid): State
    requires t < |s.phase|
  {
    if MayWrite(s)
    then s.(waitingWriters := s.waitingWriters - 1, status := s.status - 1, phase := s.phase[t := Writing])
    else s.(phase := s.phase[t := WaitWrite(false)])
  }

  predicate Is(phase: seq<Phase>, t: int, p: Phase) { 0 <= t < |phase| && phase[t] == p }

  function Wake(p: Phase): Phase { if p.WaitRead? then WaitRead(true) else p }

  /** `notify_all` on the readers' condition variable. */
  function WakeAllReaders(phase: seq<Phase>): (r: seq<Phase>)
    ensures |r| == |phase| && forall i :: 0 <= i < |r| ==> r[i] == Wake(phase[i])
  {
    seq(|phase|, i requires 0 <= i < |phase| => Wake(phase[i]))
  }

  /** `notify_one` on the writers' condition variable: some sleeper, whichever the system
      likes, wakes; nothing happens if nobody sleeps. */
  ghost predicate NotifiesOneWriter(before: seq<Phase>, after: seq<Phase>) {
    || (exists w :: Is(before, w, WaitWrite(false)) && after == before[w := WaitWrite(true)])
    || ((forall w :: !Is(before, w, WaitWrite(false))) && after == before)
  }

  /** The lock state right after the counter update of `unlock`, before any notification. */
  function Released(s: State, t: Tid): State
    requires t < |s.phase|
  {
    s.(status := if s.status == -1 then 0 else s.status - 1, phase := s.phase[t := Idle])
  }

  ghost predicate UnlockStep(s: State, t: Tid, s': State)
    requires t < |s.phase|
  {
    if s.status == 0 || s.status < -1 then s' == s
    else
      var r := Released(s, t);
      if r.waitingWriters > 0
      then if r.status == 0
           then NotifiesOneWriter(r.phase, s'.phase) && s' == r.(phase := s'.phase)
           else s' == r
      else s' == r.(phase := WakeAllReaders(r.phase))
  }

  datatype Event =
    | EnterRead(t: Tid) | RecheckRead(t: Tid)
    | EnterWrite(t: Tid) | RecheckWrite(t: Tid)
    | Unlock(t: Tid) | IdleUnlock(t: Tid)
    | SpuriousWake(t: Tid)

  ghost predicate Next(s: State, e: Event, s': State) {
    && e.t < |s.phase|
    && match e
       case EnterRead(t) => s.phase[t].Idle? && s' == TryRead(s.(waitingReaders := s.waitingReaders + 1), t)
       case RecheckRead(t) => Is(s.phase, t, WaitRead(true)) && s' == TryRead(s, t)
       case EnterWrite(t) => s.phase[t].Idle? && s' == TryWrite(s.(waitingWriters := s.waitingWriters + 1), t)
       case RecheckWrite(t) => Is(s.phase, t, WaitWrite(true)) && s' == TryWrite(s, t)
       case Unlock(t) => (s.phase[t].Reading? || s.phase[t].Writing?) && UnlockStep(s, t, s')
       // unlocking a lock nobody holds returns at once
       case IdleUnlock(t) => s.phase[t].Idle? && s.status == 0 && UnlockStep(s, t, s')
       case SpuriousWake(t) =>
         || (Is(s.phase, t, WaitRead(false)) && s' == s.(phase := s.phase[t := WaitRead(true)]))
         || (Is(s.phase, t, WaitWrite(false)) && s' == s.(phase := s.phase[t := WaitWrite(true)]))
  }

  ghost predicate Init(s: State) {
    && s.status == 0 && s.waitingReaders == 0 && s.waitingWriters == 0
    && forall t :: 0 <= t < |s.phase| ==> s.phase[t].Idle?
  }

  // ----- the invariant

  /** `m_status` says exactly who holds the lock: -1 for one writer and no reader,
      otherwise the number of readers, with no writer. */
  ghost predicate Exclusive(s: State) {
    if s.status == -1 then Count(s.phase, KWriting) == 1 && Count(s.phase, KReading) == 0
    else s.status == Count(s.phase, KReading) && Count(s.phase, KWriting) == 0
  }

  ghost predicate CountersExact(s: State) {
    && s.waitingReaders == Count(s.phase, KWaitRead)
    && s.waitingWriters == Count(s.phase, KWaitWrite)
  }

  /** No wake-up is lost: a free lock with a waiting writer has an awake writer, and a
      reader sleeps only while its wait predicate is false. */
  ghost predicate NobodyForgotten(s: State) {
    && (s.status == 0 && s.waitingWriters > 0 ==> exists t :: Is(s.phase, t, WaitWrite(true)))
    && (forall t :: Is(s.phase, t, WaitRead(false)) ==> !MayRead(s))
  }

  ghost predicate Inv(s: State) { Exclusive(s) && CountersExact(s) && NobodyForgotten(s) }

  // ----- counting

  function Bit(b: bool): nat { if b then 1 else 0 }

  lemma {:induction false} CountMove(phase: seq<Phase>, t: Tid, p: Phase, k: Kind)
    requires t < |phase|
    ensures Count(phase[t := p], k) == Count(phase, k) + Bit(KindOf(p) == k) - Bit(KindOf(phase[t]) == k)
  {
    var last := |phase| - 1;
    if t == last {
      assert phase[t := p][..last] == phase[..last];
    } else {
      CountMove(phase[..last], t, p, k);
      assert phase[t := p][..last] == phase[..last][t := p];
    }
  }

  lemma CountMoves(phase: seq<Phase>, t: Tid, p: Phase)
    requires t < |phase|
    ensures Moved(phase, t, p, KWaitRead) && Moved(phase, t, p, KWaitWrite)
    ensures Moved(phase, t, p, KReading) && Moved(phase, t, p, KWriting)
  {
    CountMove(phase, t, p, KWaitRead);
    CountMove(phase, t, p, KWaitWrite);
    CountMove(phase, t, p, KReading);
    CountMove(phase, t, p, KWriting);
  }

  ghost predicate Moved(phase: seq<Phase>, t: Tid, p: Phase, k: Kind)
    requires t < |phase|
  {
    Count(phase[t := p], k) == Count(phase, k) + Bit(KindOf(p) == k) - Bit(KindOf(phase[t]) == k)
  }

  lemma {:induction false} WakingKeepsCount(phase: seq<Phase>, k: Kind)
    ensures Count(WakeAllReaders(phase), k) == Count(phase, k)
  {
    if phase != [] {
      var last := |phase| - 1;
      WakingKeepsCount(phase[..last], k);
      assert WakeAllReaders(phase)[..last] == WakeAllReaders(phase[..last]);
    }
  }

  lemma WakingKeepsCounts(phase: seq<Phase>)
    ensures forall k :: Count(WakeAllReaders(phase), k) == Count(phase, k)
  {
    forall k: Kind ensures Count(WakeAllReaders(phase), k) == Count(phase, k) { WakingKeepsCount(phase, k); }
  }

  /** A thread in a phase makes the count of that phase positive. */
  lemma CountMember(phase: seq<Phase>, t: Tid)
    requires t < |phase|
    ensures Count(phase, KindOf(phase[t])) > 0
  {
    var k := KindOf(phase[t]);
    CountMove(phase, t, if k == KIdle then Reading else Idle, k);
  }

  /** A positive count has a member. */
  lemma {:induction false} SomeMember(phase: seq<Phase>, k: Kind) returns (t: Tid)
    requires Count(phase, k) > 0
    ensures t < |phase| && KindOf(phase[t]) == k
  {
    var last := |phase| - 1;
    if KindOf(phase[last]) == k { t := last; } else { t := SomeMember(phase[..last], k); }
  }

  /** Two different threads in phases of kind k count twice. */
  lemma CountTwo(phase: seq<Phase>, t: Tid, u: Tid)
    requires t < |phase| && u < |phase| && t != u && KindOf(phase[t]) == KindOf(phase[u]) != KIdle
    ensures Count(phase, KindOf(phase[t])) >= 2
  {
    CountMove(phase, t, Idle, KindOf(phase[t]));
    CountMember(phase[t := Idle], u);
  }

  lemma HoldersByStatus(s: State, t: Tid)
    requires Inv(s) && t < |s.phase|
    ensures s.phase[t].Reading? ==> s.status > 0
    ensures s.phase[t].Writing? ==> s.status == -1
  {
    CountMember(s.phase, t);
  }

  // ----- every step keeps the invariant

  lemma TryReadKeepsInv(s: State, t: Tid)
    requires t < |s.phase| && (s.phase[t].Idle? || s.phase[t] == WaitRead(true)) && Inv(s)
    ensures Inv(TryRead(if s.phase[t].Idle? then s.(waitingReaders := s.waitingReaders + 1) else s, t))
  {
    CountMoves(s.phase, t, Reading);
    CountMoves(s.phase, t, WaitRead(false));
    var s1 := if s.phase[t].Idle? then s.(waitingReaders := s.waitingReaders + 1) else s;
    var s' := TryRead(s1, t);
    assert forall w :: Is(s.phase, w, WaitWrite(true)) ==> Is(s'.phase, w, WaitWrite(true));
    assert forall r :: Is(s'.phase, r, WaitRead(false)) ==> r == t || Is(s.phase, r, WaitRead(false));
  }

  lemma TryWriteKeepsInv(s: State, t: Tid)
    requires t < |s.phase| && (s.phase[t].Idle? || s.phase[t] == WaitWrite(true)) && Inv(s)
    ensures Inv(TryWrite(if s.phase[t].Idle? then s.(waitingWriters := s.waitingWriters + 1) else s, t))
  {
    CountMoves(s.phase, t, Writing);
    CountMoves(s.phase, t, WaitWrite(false));
    var s1 := if s.phase[t].Idle? then s.(waitingWriters := s.waitingWriters + 1) else s;
    var s' := TryWrite(s1, t);
    assert forall r :: Is(s'.phase, r, WaitRead(false)) ==> Is(s.phase, r, WaitRead(false));
  }

  lemma UnlockKeepsInv(s: State, t: Tid, s': State)
    requires Inv(s) && Next(s, Unlock(t), s')
    ensures Inv(s')
  {
    HoldersByStatus(s, t);
    var r := Released(s, t);
    CountMoves(s.phase, t, Idle);
    if r.waitingWriters > 0 {
      if r.status == 0 {
        NotifyOneKeepsInv(r, s');
      }
    } else {
      WakingKeepsCounts(r.phase);
    }
  }

  lemma NotifyOneKeepsInv(r: State, s': State)
    requires Exclusive(r) && CountersExact(r) && r.waitingWriters > 0 && r.status == 0
    requires NotifiesOneWriter(r.phase, s'.phase) && s' == r.(phase := s'.phase)
    ensures Inv(s')
  {
    if w :| Is(r.phase, w, WaitWrite(false)) && s'.phase == r.phase[w := WaitWrite(true)] {
      CountMoves(r.phase, w, WaitWrite(true));
      assert Is(s'.phase, w, WaitWrite(true));
    } else {
      var w := SomeMember(r.phase, KWaitWrite);
      assert !Is(r.phase, w, WaitWrite(false));
      assert Is(s'.phase, w, WaitWrite(true));
    }
  }

  lemma SpuriousWakeKeepsInv(s: State, t: Tid, s': State)
    requires Inv(s) && Next(s, SpuriousWake(t), s')
    ensures Inv(s')
  {
    CountMoves(s.phase, t, s'.phase[t]);
    assert forall w :: Is(s.phase, w, WaitWrite(true)) ==> Is(s'.phase, w, WaitWrite(true));
    assert forall r :: Is(s'.phase, r, WaitRead(false)) ==> Is(s.phase, r, WaitRead(false));
  }

  lemma StepKeepsInv(s: State, e: Event, s': State)
    requires Inv(s) && Next(s, e, s')
    ensures Inv(s')
  {
    match e
    case EnterRead(t) => TryReadKeepsInv(s, t);
    case RecheckRead(t) => TryReadKeepsInv(s, t);
    case EnterWrite(t) => TryWriteKeepsInv(s, t);
    case RecheckWrite(t) => TryWriteKeepsInv(s, t);
    case Unlock(t) => UnlockKeepsInv(s, t, s');
    case IdleUnlock(t) =>
    case SpuriousWake(t) => SpuriousWakeKeepsInv(s, t, s');
  }

  // ----- whole runs

  /** A run: n events lead through n + 1 states, one step at a time. */
  ghost predicate Run(states: seq<State>, events: seq<Event>) {
    && |states| == |events| + 1
    && forall i :: 0 <= i < |events| ==> Next(states[i], events[i], states[i + 1])
  }

  lemma {:induction false} AllIdleCount(phase: seq<Phase>, k: Kind)
    requires k != KIdle && forall t :: 0 <= t < |phase| ==> phase[t].Idle?
    ensures Count(phase, k) == 0
  {
    if phase != [] { AllIdleCount(phase[..|phase| - 1], k); }
  }

  lemma InitHasInv(s: State)
    requires Init(s)
    ensures Inv(s)
  {
    AllIdleCount(s.phase, KWaitRead);
    AllIdleCount(s.phase, KWaitWrite);
    AllIdleCount(s.phase, KReading);
    AllIdleCount(s.phase, KWriting);
  }

  /** Safety over every interleaving: exclusion, exact counters and no lost wake-up. */
  lemma {:induction false} EveryRunIsSafe(states: seq<State>, events: seq<Event>, k: nat)
    requires Run(states, events) && Init(states[0]) && k < |states|
    ensures Inv(states[k])
  {
    if k == 0 {
      InitHasInv(states[0]);
    } else {
      EveryRunIsSafe(states, events, k - 1);
      StepKeepsInv(states[k - 1], events[k - 1], states[k]);
    }
  }

  /** No reachable state has a writer in the lock together with any other thread. */
  lemma MutualExclusion(states: seq<State>, events: seq<Event>, k: nat, w: Tid, t: Tid)
    requires Run(states, events) && Init(states[0]) && k < |states|
    requires w < |states[k].phase| && t < |states[k].phase| && t != w
    ensures states[k].phase[w].Writing? ==> !states[k].phase[t].Reading? && !states[k].phase[t].Writing?
  {
    var s := states[k];
    EveryRunIsSafe(states, events, k);
    if s.phase[w].Writing? {
      HoldersByStatus(s, w);
      HoldersByStatus(s, t);
      if s.phase[t].Writing? {
        CountTwo(s.phase, w, t);
        assert false;
      }
    }
  }

  // ----- who gets in, and who is woken, by what the threads are doing

  /** A reader gets in exactly when no writer waits and none is in: other readers do not matter. */
  lemma ReaderGetsInExactly(s: State, e: Event, s': State)
    requires Inv(s) && Next(s, e, s') && (e.EnterRead? || e.RecheckRead?)
    ensures s'.phase == s.phase[e.t := if Count(s.phase, KWaitWrite) == 0 && Count(s.phase, KWriting) == 0 then Reading else WaitRead(false)]
  {
  }

  /** A writer gets in exactly when nobody is in. */
  lemma WriterGetsInExactly(s: State, e: Event, s': State)
    requires Inv(s) && Next(s, e, s') && (e.EnterWrite? || e.RecheckWrite?)
    ensures s'.phase == s.phase[e.t := if Holding(s) == 0 then Writing else WaitWrite(false)]
  {
  }

  /** Unlocking wakes all sleeping readers if no writer waits; if one does, it wakes one sleeping writer
      when the last holder leaves, and nobody before. */
  lemma UnlockWakesExactly(s: State, t: Tid, s': State)
    requires Inv(s) && Next(s, Unlock(t), s')
    ensures Count(s.phase, KWaitWrite) == 0 ==> s'.phase == ReadersAwake(s.phase[t := Idle])
    ensures Count(s.phase, KWaitWrite) > 0 && Holding(s) > 1 ==> s'.phase == s.phase[t := Idle]
    ensures Count(s.phase, KWaitWrite) > 0 && Holding(s) == 1 ==>
              if exists w :: Is(s.phase, w, WaitWrite(false))
              then exists w :: Is(s.phase, w, WaitWrite(false)) && s'.phase == s.phase[t := Idle][w := WaitWrite(true)]
              else s'.phase == s.phase[t := Idle]
  {
    HoldersByStatus(s, t);
    CountMember(s.phase, t);
    var r := Released(s, t);
    if r.waitingWriters == 0 {
      assert s'.phase == ReadersAwake(r.phase);
    } else if r.status == 0 {
      forall w ensures Is(s.phase, w, WaitWrite(false)) <==> Is(r.phase, w, WaitWrite(false)) {}
    }
  }

  function ReadersAwake(phase: seq<Phase>): (r: seq<Phase>)
    ensures |r| == |phase|
    ensures forall u :: 0 <= u < |r| ==> r[u] == if phase[u] == WaitRead(false) then WaitRead(true) else phase[u]
  {
    seq(|phase|, u requires 0 <= u < |phase| => if phase[u] == WaitRead(false) then WaitRead(true) else phase[u])
  }

  /** Readers share the lock: any number of threads can be in it at once, one after the other coming in
      while the others read. */
  lemma {:induction false} ReadersShare(s: State, n: nat) returns (states: seq<State>, events: seq<Event>)
    requires Init(s) && n <= |s.phase|
    ensures Run(states, events) && states[0] == s && |events| == n && |states[n].phase| == |s.phase|
    ensures forall t :: 0 <= t < |s.phase| ==> states[n].phase[t] == if t < n then Reading else Idle
  {
    if n == 0 {
      return [s], [];
    }
    states, events := ReadersShare(s, n - 1);
    var e := EnterRead(n - 1);
    var last := states[n - 1];
    EveryRunIsSafe(states, events, n - 1);
    NobodyWrites(last.phase, KWaitWrite);
    NobodyWrites(last.phase, KWriting);
    var s' := TryRead(last.(waitingReaders := last.waitingReaders + 1), n - 1);
    ReaderGetsInExactly(last, e, s');
    states, events := states + [s'], events + [e];
  }

  lemma {:induction false} NobodyWrites(phase: seq<Phase>, k: Kind)
    requires k == KWaitWrite || k == KWriting
    requires forall t :: 0 <= t < |phase| ==> phase[t].Reading? || phase[t].Idle?
    ensures Count(phase, k) == 0
  {
    if phase != [] { NobodyWrites(phase[..|phase| - 1], k); }
  }

  /** Whenever nobody holds the lock and somebody waits, some waiter is awake with its
      predicate true, and its very next step takes the lock. */
  lemma NoLostWakeup(states: seq<State>, events: seq<Event>, k: nat) returns (t: Tid, e: Event, s': State)
    requires Run(states, events) && Init(states[0]) && k < |states|
    requires Holding(states[k]) == 0 && Waiting(states[k]) > 0
    ensures Next(states[k], e, s') && e.t == t < |s'.phase|
    ensures || (Is(states[k].phase, t, WaitRead(true)) && MayRead(states[k]) && s'.phase[t].Reading?)
            || (Is(states[k].phase, t, WaitWrite(true)) && MayWrite(states[k]) && s'.phase[t].Writing?)
  {
    EveryRunIsSafe(states, events, k);
    t, e, s' := FreeLockServesSomebody(states[k]);
  }

  lemma FreeLockServesSomebody(s: State) returns (t: Tid, e: Event, s': State)
    requires Inv(s) && Holding(s) == 0 && Waiting(s) > 0
    ensures Next(s, e, s') && e.t == t < |s'.phase|
    ensures || (Is(s.phase, t, WaitRead(true)) && MayRead(s) && e == RecheckRead(t) && s'.phase[t].Reading?)
            || (Is(s.phase, t, WaitWrite(true)) && MayWrite(s) && e == RecheckWrite(t) && s'.phase[t].Writing?)
  {
    if s.waitingWriters > 0 {
      t :| Is(s.phase, t, WaitWrite(true));
      e, s' := RecheckWrite(t), TryWrite(s, t);
    } else {
      t := SomeMember(s.phase, KWaitRead);
      assert !Is(s.phase, t, WaitRead(false));
      e, s' := RecheckRead(t), TryRead(s, t);
    }
  }

  /** Writer preference, one step: while a writer waits no reader gets in. */
  lemma WaitingWriterBlocksReaders(s: State, e: Event, s': State)
    requires s.waitingWriters > 0 && Next(s, e, s')
    ensures |s'.phase| == |s.phase|
    ensures forall t :: Is(s'.phase, t, Reading) ==> Is(s.phase, t, Reading)
  {
  }

  lemma {:induction false} CountMonotone(a: seq<Phase>, b: seq<Phase>, k: Kind)
    requires |a| == |b| && forall t :: 0 <= t < |a| && KindOf(a[t]) == k ==> KindOf(b[t]) == k
    ensures Count(a, k) <= Count(b, k)
  {
    if a != [] { CountMonotone(a[..|a| - 1], b[..|a| - 1], k); }
  }

  /** Writer preference over any stretch of a run through which a writer keeps waiting:
      every reader in the lock at its end was in at its start, so their number never rises. */
  lemma {:induction false} ReadersOnlyDrain(states: seq<State>, events: seq<Event>, i: nat, j: nat)
    requires Run(states, events) && i <= j < |states|
    requires forall k :: i <= k < j ==> states[k].waitingWriters > 0
    ensures |states[j].phase| == |states[i].phase|
    ensures forall t :: Is(states[j].phase, t, Reading) ==> Is(states[i].phase, t, Reading)
    ensures Count(states[j].phase, KReading) <= Count(states[i].phase, KReading)
    decreases j
  {
    if i < j {
      ReadersOnlyDrain(states, events, i, j - 1);
      WaitingWriterBlocksReaders(states[j - 1], events[j - 1], states[j]);
      forall t | 0 <= t < |states[j].phase| && KindOf(states[j].phase[t]) == KReading
        ensures KindOf(states[i].phase[t]) == KReading
      {
        assert Is(states[j].phase, t, Reading);
      }
      CountMonotone(states[j].phase, states[i].phase, KReading);
    }
  }

  // ----- absence of deadlock

  /** Work left if nobody new arrives: a waiter has to get in and get out, a holder to get out. */
  function Pending(s: State): nat { 2 * Waiting(s) + Holding(s) }

  /** From every state the invariant allows there is a run, in which nobody arrives and
      nobody wakes spuriously, that serves every waiter and empties the lock. */
  lemma {:induction false} EveryoneCanBeServed(s: State) returns (states: seq<State>, events: seq<Event>)
    requires Inv(s)
    ensures Run(states, events) && states[0] == s
    ensures forall i :: 0 <= i < |events| ==> events[i].RecheckRead? || events[i].RecheckWrite? || events[i].Unlock?
    ensures |events| == Pending(s)
    ensures Waiting(states[|events|]) == 0 && Holding(states[|events|]) == 0
    decreases Pending(s)
  {
    if Pending(s) == 0 {
      return [s], [];
    }
    var t, e, s' := SomeoneProceeds(s);
    StepKeepsInv(s, e, s');
    var restStates, restEvents := EveryoneCanBeServed(s');
    states, events := [s] + restStates, [e] + restEvents;
  }

  lemma SomeoneProceeds(s: State) returns (t: Tid, e: Event, s': State)
    requires Inv(s) && Pending(s) > 0
    ensures Next(s, e, s') && (e.RecheckRead? || e.RecheckWrite? || e.Unlock?)
    ensures Pending(s') == Pending(s) - 1
  {
    if Holding(s) == 0 {
      t, e, s' := FreeLockServesSomebody(s);
      CountMoves(s.phase, t, s'.phase[t]);
    } else {
      if Count(s.phase, KReading) > 0 { t := SomeMember(s.phase, KReading); } else { t := SomeMember(s.phase, KWriting); }
      s' := SomeUnlock(s, t);
      e := Unlock(t);
    }
  }

  lemma SomeUnlock(s: State, t: Tid) returns (s': State)
    requires Inv(s) && t < |s.phase| && (s.phase[t].Reading? || s.phase[t].Writing?)
    ensures Next(s, Unlock(t), s')
    ensures Pending(s') == Pending(s) - 1
  {
    HoldersByStatus(s, t);
    var r := Released(s, t);
    CountMoves(s.phase, t, Idle);
    if r.waitingWriters > 0 {
      if r.status == 0 && exists w :: Is(r.phase, w, WaitWrite(false)) {
        var w :| Is(r.phase, w, WaitWrite(false));
        s' := r.(phase := r.phase[w := WaitWrite(true)]);
        CountMoves(r.phase, w, WaitWrite(true));
      } else {
        s' := r;
      }
    } else {
      s' := r.(phase := WakeAllReaders(r.phase));
      WakingKeepsCounts(r.phase);
    }
  }

  // ----- every run without arrivals ends with everybody served

  /** Steps of threads that are in or awake: nobody arrives and nobody wakes spuriously. */
  predicate IsQuiet(e: Event) { e.RecheckRead? || e.RecheckWrite? || e.Unlock? }

  predicate IsAwake(p: Phase) { (p.WaitRead? || p.WaitWrite?) && p.awake }

  function Awake(phase: seq<Phase>): (n: nat)
    ensures n <= |phase|
  {
    if phase == [] then 0 else Awake(phase[..|phase| - 1]) + Bit(IsAwake(phase[|phase| - 1]))
  }

  lemma {:induction false} AwakeMove(phase: seq<Phase>, t: Tid, p: Phase)
    requires t < |phase|
    ensures Awake(phase[t := p]) == Awake(phase) - Bit(IsAwake(phase[t])) + Bit(IsAwake(p))
  {
    var last := |phase| - 1;
    if t == last {
      assert phase[t := p][..last] == phase[..last];
    } else {
      assert phase[t := p][..last] == phase[..last][t := p];
      AwakeMove(phase[..last], t, p);
    }
  }

  /** Pending work first, then the waiters that still have to test their predicate. */
  function Fuel(s: State): nat { Pending(s) * (|s.phase| + 1) + Awake(s.phase) }

  /** A quiet step serves somebody, lets somebody out, or sends a waiter back to sleep. */
  lemma QuietStepBurnsFuel(s: State, e: Event, s': State)
    requires Inv(s) && Next(s, e, s') && IsQuiet(e)
    ensures |s'.phase| == |s.phase| && Fuel(s') < Fuel(s)
  {
    match e
    case RecheckRead(t) =>
      CountMoves(s.phase, t, s'.phase[t]);
      AwakeMove(s.phase, t, s'.phase[t]);
      LessWork(s, s');
    case RecheckWrite(t) =>
      CountMoves(s.phase, t, s'.phase[t]);
      AwakeMove(s.phase, t, s'.phase[t]);
      LessWork(s, s');
    case Unlock(t) =>
      UnlockIsProgress(s, t, s');
      LessWork(s, s');
  }

  lemma LessWork(s: State, s': State)
    requires |s'.phase| == |s.phase|
    requires Pending(s') < Pending(s) || (Pending(s') == Pending(s) && Awake(s'.phase) < Awake(s.phase))
    ensures Fuel(s') < Fuel(s)
  {
    if Pending(s') < Pending(s) { OneLess(Pending(s'), Pending(s), |s.phase| + 1); }
  }

  lemma {:induction false} OneLess(a: nat, b: nat, n: nat)
    requires a < b
    ensures a * n + n <= b * n
    decreases b
  {
    if a < b - 1 { OneLess(a, b - 1, n); }
    assert b * n == (b - 1) * n + n;
  }

  lemma UnlockIsProgress(s: State, t: Tid, s': State)
    requires Inv(s) && Next(s, Unlock(t), s')
    ensures |s'.phase| == |s.phase| && Pending(s') == Pending(s) - 1
  {
    HoldersByStatus(s, t);
    var r := Released(s, t);
    CountMoves(s.phase, t, Idle);
    if r.waitingWriters > 0 {
      if r.status == 0 && s'.phase != r.phase {
        var w :| Is(r.phase, w, WaitWrite(false)) && s'.phase == r.phase[w := WaitWrite(true)];
        CountMoves(r.phase, w, WaitWrite(true));
      }
    } else {
      WakingKeepsCounts(r.phase);
    }
  }

  /** No run of quiet steps is longer than the fuel of its first state. */
  lemma {:induction false} QuietRunsEnd(states: seq<State>, events: seq<Event>)
    requires Run(states, events) && Inv(states[0])
    requires forall i :: 0 <= i < |events| ==> IsQuiet(events[i])
    ensures |events| + Fuel(states[|events|]) <= Fuel(states[0]) && Inv(states[|events|])
    decreases |events|
  {
    if events != [] {
      StepKeepsInv(states[0], events[0], states[1]);
      QuietStepBurnsFuel(states[0], events[0], states[1]);
      QuietRunsEnd(states[1..], events[1..]);
    }
  }

  ghost predicate CanStep(s: State) { exists e, s' :: IsQuiet(e) && Next(s, e, s') }

  /** A quiet step is possible exactly as long as somebody waits or holds the lock. */
  lemma StuckExactly(s: State)
    requires Inv(s)
    ensures CanStep(s) <==> Waiting(s) > 0 || Holding(s) > 0
  {
    if Pending(s) > 0 {
      var t, e, s' := SomeoneProceeds(s);
      assert IsQuiet(e) && Next(s, e, s');
    }
    if CanStep(s) {
      var e, s' :| IsQuiet(e) && Next(s, e, s');
      CountMember(s.phase, e.t);
    }
  }

  /** However the threads are scheduled: once nobody arrives, every run ends, and one that cannot go on
      has served every waiter and emptied the lock. */
  lemma EveryoneIsServed(states: seq<State>, events: seq<Event>)
    requires Run(states, events) && Inv(states[0])
    requires (forall i :: 0 <= i < |events| ==> IsQuiet(events[i])) && !CanStep(states[|events|])
    ensures |events| <= Fuel(states[0])
    ensures Waiting(states[|events|]) == 0 && Holding(states[|events|]) == 0
  {
    QuietRunsEnd(states, events);
    StuckExactly(states[|events|]);
  }

  // ----- the lock object

  /** The object of the C++ class, together with the threads that use it. A blocking call is
      the sequence of critical sections it runs: one to enter, then one per wake-up. */
  class RWMutex {
    var status: int
    var waitingReaders: int
    var waitingWriters: int
    var phase: seq<Phase>

    function Abs(): State
      reads this
    {
      State(status, waitingReaders, waitingWriters, phase)
    }

    constructor (threads: nat)
      ensures Init(Abs()) && |phase| == threads && Inv(Abs())
    {
      status, waitingReaders, waitingWriters := 0, 0, 0;
      phase := seq(threads, _ => Idle);
      new;
      InitHasInv(Abs());
    }

    /** `rdlock`, up to the point where the caller either holds the lock or blocks. */
    method RdLock(t: Tid)
      requires t < |phase| && phase[t].Idle? && Inv(Abs())
      modifies this
      ensures Next(old(Abs()), EnterRead(t), Abs()) && Inv(Abs())
    {
      waitingReaders := waitingReaders + 1;
      RdTest(t);
      StepKeepsInv(old(Abs()), EnterRead(t), Abs());
    }

    /** A woken reader runs its predicate again. */
    method RdRecheck(t: Tid)
      requires Is(phase, t, WaitRead(true)) && Inv(Abs())
      modifies this
      ensures Next(old(Abs()), RecheckRead(t), Abs()) && Inv(Abs())
    {
      RdTest(t);
      StepKeepsInv(old(Abs()), RecheckRead(t), Abs());
    }

    method RdTest(t: Tid)
      requires t < |phase|
      modifies this
      ensures Abs() == TryRead(old(Abs()), t)
    {
      if waitingWriters == 0 && status >= 0 {
        waitingReaders := waitingReaders - 1;
        status := status + 1;
        phase := phase[t := Reading];
      } else {
        phase := phase[t := WaitRead(false)];
      }
    }

    /** `wrlock`, up to the point where the caller either holds the lock or blocks. */
    method WrLock(t: Tid)
      requires t < |phase| && phase[t].Idle? && Inv(Abs())
      modifies this
      ensures Next(old(Abs()), EnterWrite(t), Abs()) && Inv(Abs())
    {
      waitingWriters := waitingWriters + 1;
      WrTest(t);
      StepKeepsInv(old(Abs()), EnterWrite(t), Abs());
    }

    /** A woken writer runs its predicate again. */
    method WrRecheck(t: Tid)
      requires Is(phase, t, WaitWrite(true)) && Inv(Abs())
      modifies this
      ensures Next(old(Abs()), RecheckWrite(t), Abs()) && Inv(Abs())
    {
      WrTest(t);
      StepKeepsInv(old(Abs()), RecheckWrite(t), Abs());
    }

    method WrTest(t: Tid)
      requires t < |phase|
      modifies this
      ensures Abs() == TryWrite(old(Abs()), t)
    {
      if status == 0 {
        waitingWriters := waitingWriters - 1;
        status := status - 1;
        phase := phase[t := Writing];
      } else {
        phase := phase[t := WaitWrite(false)];
      }
    }

    /** `unlock` by a holder. */
    method Unlock(t: Tid)
      requires t < |phase| && (phase[t].Reading? || phase[t].Writing?) && Inv(Abs())
      modifies this
      ensures Next(old(Abs()), Event.Unlock(t), Abs()) && Inv(Abs())
    {
      HoldersByStatus(Abs(), t);
      if status == -1 {
        status := 0;
      } else if status > 0 {
        status := status - 1;
      } else {
        return;
      }
      phase := phase[t := Idle];
      ghost var r := Abs();
      if waitingWriters > 0 {
        if status == 0 {
          NotifyOneWriter();
        }
      } else {
        phase := WakeAllReaders(phase);
      }
      assert r == Released(old(Abs()), t);
      StepKeepsInv(old(Abs()), Event.Unlock(t), Abs());
    }

    method NotifyOneWriter()
      modifies this`phase
      ensures NotifiesOneWriter(old(phase), phase)
    {
      if exists w :: 0 <= w < |phase| && phase[w] == WaitWrite(false) {
        var w :| 0 <= w < |phase| && phase[w] == WaitWrite(false);
        assert Is(old(phase), w, WaitWrite(false));
        phase := phase[w := WaitWrite(true)];
      }
    }
  }
}
