/** The reusable two-phase barrier of tests/common/ppu_thread.c.

    `barrier_sync` is one mutex, one condition variable and two counters.  It is
    modelled as a transition system over any number of threads, each at one of the
    program points of the function.  A thread asleep in `pthread_cond_wait` holds no
    mutex, a woken one has to take the mutex again before it re-tests its condition,
    and any sleeper may also wake for no reason at all.

    `arrived` and `returned` record, in order, which thread executed the increment of
    `counter` and which thread came back from `barrier_sync`; `batches` counts the
    batches that were completed.  No step reads them. */
module Barrier {

  import opened Common

  /** Where a thread stands in `barrier_sync`. */
  datatype PC =
    | Outside      // not in the function
    | Locking      // at pthread_mutex_lock
    | TestDone     // holds the mutex, tests `barrier->done`
    | AsleepEnter  // asleep, waits for the previous batch to leave
    | RelockEnter  // woken from there, must take the mutex again
    | Arriving     // holds the mutex, increments `counter`
    | TestOpen     // holds the mutex, tests `!barrier->done`
    | AsleepLeave  // asleep, waits for its own batch to be complete
    | RelockLeave  // woken from there, must take the mutex again
    | Departing    // holds the mutex, asserts counter == 0 and decrements `done`
    | Unlocking    // holds the mutex, at pthread_mutex_unlock

  datatype State = State(
    N: int,              // thread_count, the same for every caller
    counter: int,
    done: int,
    mutex: Option<nat>,
    pcs: seq<PC>,        // one entry a thread
    batches: nat,
    arrived: seq<nat>,
    returned: seq<nat>)

  datatype Event = Call(t: nat) | Run(t: nat) | Spurious(t: nat)

  predicate Init(s: State) {
    && s.counter == 0 && s.done == 0 && s.mutex == None
    && s.batches == 0 && s.arrived == [] && s.returned == []
    && forall i :: 0 <= i < |s.pcs| ==> s.pcs[i] == Outside
  }

  predicate Holds(pc: PC) { pc in {TestDone, Arriving, TestOpen, Departing, Unlocking} }
  predicate NeedsMutex(pc: PC) { pc in {Locking, RelockEnter, RelockLeave} }
  predicate Asleep(pc: PC) { pc in {AsleepEnter, AsleepLeave} }

  function Woken(pc: PC): PC {
    match pc
    case AsleepEnter => RelockEnter
    case AsleepLeave => RelockLeave
    case _ => pc
  }

  function Broadcast(pcs: seq<PC>): (r: seq<PC>)
    ensures |r| == |pcs|
  {
    seq(|pcs|, i requires 0 <= i < |pcs| => Woken(pcs[i]))
  }

  predicate Enabled(s: State, e: Event) {
    && e.t < |s.pcs|
    && match e
       case Call(t) => s.pcs[t] == Outside
       case Spurious(t) => Asleep(s.pcs[t])
       case Run(t) => Holds(s.pcs[t]) || (NeedsMutex(s.pcs[t]) && s.mutex == None)
  }

  /** One step.  What a thread does while it holds the mutex is one step from one
      test of a shared counter to the next. */
  function Next(s: State, e: Event): State
    requires Enabled(s, e)
  {
    match e
    case Call(t) => s.(pcs := s.pcs[t := Locking])
    case Spurious(t) => s.(pcs := s.pcs[t := Woken(s.pcs[t])])
    case Run(t) => Program(s, t)
  }

  function Program(s: State, t: nat): State
    requires Enabled(s, Run(t))
  {
    match s.pcs[t]
    case Locking => s.(mutex := Some(t), pcs := s.pcs[t := TestDone])
    case RelockEnter => s.(mutex := Some(t), pcs := s.pcs[t := TestDone])
    case TestDone =>
      if s.done != 0 then s.(mutex := None, pcs := s.pcs[t := AsleepEnter])
      else s.(pcs := s.pcs[t := Arriving])
    case Arriving =>
      if s.counter + 1 == s.N then
        s.(counter := 0, done := s.N - 1, pcs := Broadcast(s.pcs)[t := Unlocking],
           batches := s.batches + 1, arrived := s.arrived + [t])
      else
        s.(counter := s.counter + 1, pcs := s.pcs[t := TestOpen], arrived := s.arrived + [t])
    case TestOpen =>
      if s.done == 0 then s.(mutex := None, pcs := s.pcs[t := AsleepLeave])
      else s.(pcs := s.pcs[t := Departing])
    case RelockLeave => s.(mutex := Some(t), pcs := s.pcs[t := TestOpen])
    case Departing =>
      s.(done := s.done - 1,
         pcs := (if s.done - 1 == 0 then Broadcast(s.pcs) else s.pcs)[t := Unlocking])
    case Unlocking => s.(mutex := None, pcs := s.pcs[t := Outside], returned := s.returned + [t])
    case _ => s
  }

  /** `s'` is reached from `s` by the events `es`, each of them enabled in its turn. */
  predicate Reaches(s: State, es: seq<Event>, s': State)
    decreases |es|
  {
    if es == [] then s' == s
    else Enabled(s, es[0]) && Reaches(Next(s, es[0]), es[1..], s')
  }

  // ---------- sums over the threads ----------

  ghost function Total(pcs: seq<PC>, f: PC -> int): int {
    if |pcs| == 0 then 0 else f(pcs[0]) + Total(pcs[1..], f)
  }

  lemma {:induction false} TotalUpdate(pcs: seq<PC>, i: nat, pc: PC, f: PC -> int)
    requires i < |pcs|
    ensures Total(pcs[i := pc], f) == Total(pcs, f) - f(pcs[i]) + f(pc)
  {
    if i == 0 {
      assert pcs[i := pc][1..] == pcs[1..];
    } else {
      assert pcs[i := pc][1..] == pcs[1..][i - 1 := pc];
      TotalUpdate(pcs[1..], i - 1, pc, f);
    }
  }

  /** What waking everybody adds to a sum is bounded by what it adds for one thread. */
  lemma {:induction false} TotalBroadcast(pcs: seq<PC>, f: PC -> int, g: PC -> int, c: int)
    requires forall pc :: f(Woken(pc)) <= f(pc) + c * g(pc)
    ensures Total(Broadcast(pcs), f) <= Total(pcs, f) + c * Total(pcs, g)
  {
    if |pcs| > 0 {
      assert Broadcast(pcs)[1..] == Broadcast(pcs[1..]);
      TotalBroadcast(pcs[1..], f, g, c);
      var rest := Total(pcs[1..], g);
      assert c * (g(pcs[0]) + rest) == c * g(pcs[0]) + c * rest;
    }
  }

  lemma {:induction false} TotalSame(pcs: seq<PC>, f: PC -> int)
    requires forall pc :: f(Woken(pc)) == f(pc)
    ensures Total(Broadcast(pcs), f) == Total(pcs, f)
  {
    if |pcs| > 0 {
      assert Broadcast(pcs)[1..] == Broadcast(pcs[1..]);
      TotalSame(pcs[1..], f);
    }
  }

  lemma {:induction false} TotalMono(pcs: seq<PC>, f: PC -> int, g: PC -> int)
    requires forall i :: 0 <= i < |pcs| ==> f(pcs[i]) <= g(pcs[i])
    ensures Total(pcs, f) <= Total(pcs, g)
  {
    if |pcs| > 0 { TotalMono(pcs[1..], f, g); }
  }

  // ---------- the invariant ----------

  /** Arrived, but not yet counted out of `done`. */
  predicate InBatch(pc: PC) { pc in {TestOpen, AsleepLeave, RelockLeave, Departing} }
  /** Arrived, but not yet back from the call. */
  predicate Inside(pc: PC) { InBatch(pc) || pc == Unlocking }

  function One(b: bool): int { if b then 1 else 0 }
  function BatchUnit(pc: PC): int { One(InBatch(pc)) }
  function InsideUnit(pc: PC): int { One(Inside(pc)) }
  ghost function Waiting(s: State): int { Total(s.pcs, BatchUnit) }
  ghost function Present(s: State): int { Total(s.pcs, InsideUnit) }

  ghost predicate MutexInv(s: State) {
    && (s.mutex.Some? ==> s.mutex.value < |s.pcs|)
    && forall i :: 0 <= i < |s.pcs| ==> (Holds(s.pcs[i]) <==> s.mutex == Some(i))
  }

  ghost predicate CountInv(s: State) {
    && 0 <= s.counter && 0 <= s.done
    && (s.N >= 1 ==> s.counter < s.N && s.done < s.N)
    && (s.N <= 0 ==> s.batches == 0 && s.done == 0)
    && |s.arrived| == s.N * s.batches + s.counter
    && (s.done > 0 ==> s.batches > 0 && s.counter == 0 && Waiting(s) == s.done)
    && (s.done == 0 ==> Waiting(s) == s.counter)
  }

  ghost predicate PhaseInv(s: State) {
    forall i :: 0 <= i < |s.pcs| ==>
      && (s.pcs[i] == AsleepLeave ==> s.done == 0)
      && (s.pcs[i] == AsleepEnter ==> s.done > 0)
      && (s.pcs[i] == Departing ==> s.done > 0)
      && (s.pcs[i] == Arriving ==> s.done == 0)
      && (s.pcs[i] == Unlocking && s.done == 0 ==> s.counter == 0)
  }

  ghost predicate LogInv(s: State) {
    && |s.arrived| == |s.returned| + Present(s)
    && forall i: nat :: multiset(s.arrived)[i] ==
         multiset(s.returned)[i] + One(i < |s.pcs| && Inside(s.pcs[i]))
  }

  /** The threads of the first k batches have all arrived and all returned. */
  ghost predicate SameThreads(s: State, k: nat) {
    0 <= s.N * k <= |s.returned| ==>
      && s.N * k <= |s.arrived|
      && multiset(s.arrived[..s.N * k]) == multiset(s.returned[..s.N * k])
  }

  ghost predicate Inv0(s: State) {
    MutexInv(s) && CountInv(s) && PhaseInv(s) && LogInv(s)
  }

  ghost predicate Inv(s: State) {
    Inv0(s) && forall k: nat :: SameThreads(s, k)
  }

  lemma {:induction false} TotalZero(pcs: seq<PC>, f: PC -> int)
    requires forall i :: 0 <= i < |pcs| ==> f(pcs[i]) == 0
    ensures Total(pcs, f) == 0
  {
    if |pcs| > 0 { TotalZero(pcs[1..], f); }
  }

  lemma InitInv(s: State)
    requires Init(s)
    ensures Inv(s)
  {
    TotalZero(s.pcs, BatchUnit);
    TotalZero(s.pcs, InsideUnit);
    forall k: nat ensures SameThreads(s, k) {
      if s.N * k == 0 { assert s.arrived[..0] == s.returned[..0]; }
    }
  }

  /** Moving one thread, alone or after a broadcast, changes the sums by that thread's
      share only. */
  lemma Moved(s: State, t: nat, pc: PC, f: PC -> int)
    requires t < |s.pcs|
    requires forall p :: f(Woken(p)) == f(p)
    ensures Total(s.pcs[t := pc], f) == Total(s.pcs, f) - f(s.pcs[t]) + f(pc)
    ensures Total(Broadcast(s.pcs)[t := pc], f) == Total(s.pcs, f) - f(s.pcs[t]) + f(pc)
  {
    TotalUpdate(s.pcs, t, pc, f);
    TotalSame(s.pcs, f);
    TotalUpdate(Broadcast(s.pcs), t, pc, f);
  }

  lemma NextMutex(s: State, e: Event)
    requires MutexInv(s) && Enabled(s, e)
    ensures MutexInv(Next(s, e))
  {}

  lemma NextPhase(s: State, e: Event)
    requires MutexInv(s) && CountInv(s) && PhaseInv(s) && Enabled(s, e)
    ensures PhaseInv(Next(s, e))
  {
    match e
    case Call(t) =>
    case Spurious(t) =>
    case Run(t) => ProgramPhase(s, t);
  }

  lemma ProgramPhase(s: State, t: nat)
    requires MutexInv(s) && CountInv(s) && PhaseInv(s) && Enabled(s, Run(t))
    ensures PhaseInv(Program(s, t))
  {
    hide Total;
  }

  lemma NextTotal(s: State, e: Event, f: PC -> int)
    requires Enabled(s, e)
    requires forall p :: f(Woken(p)) == f(p)
    ensures Total(Next(s, e).pcs, f) == Total(s.pcs, f) - f(s.pcs[e.t]) + f(Next(s, e).pcs[e.t])
  {
    Moved(s, e.t, Next(s, e).pcs[e.t], f);
  }

  lemma NextCount(s: State, e: Event)
    requires MutexInv(s) && CountInv(s) && PhaseInv(s) && Enabled(s, e)
    ensures CountInv(Next(s, e))
  {
    NextTotal(s, e, BatchUnit);
    match e
    case Call(t) =>
    case Spurious(t) =>
    case Run(t) => ProgramCount(s, t);
  }

  /** The steps of the program, the sum over the waiting threads given. */
  lemma ProgramCount(s: State, t: nat)
    requires MutexInv(s) && CountInv(s) && PhaseInv(s) && Enabled(s, Run(t))
    requires Waiting(Program(s, t)) == Waiting(s) - BatchUnit(s.pcs[t]) + BatchUnit(Program(s, t).pcs[t])
    ensures CountInv(Program(s, t))
  {
    Distribute(s.N, s.batches);
  }

  /** What the two records and the set of threads inside look like after a step of
      thread t: it may append itself to one record, and nobody else moves. */
  ghost predicate LogStep(s: State, s': State, t: nat, enters: bool, leaves: bool) {
    && t < |s.pcs| == |s'.pcs|
    && s'.N == s.N
    && s'.arrived == (if enters then s.arrived + [t] else s.arrived)
    && s'.returned == (if leaves then s.returned + [t] else s.returned)
    && One(Inside(s'.pcs[t])) == One(Inside(s.pcs[t])) + One(enters) - One(leaves)
    && forall i :: 0 <= i < |s.pcs| && i != t ==> Inside(s'.pcs[i]) == Inside(s.pcs[i])
  }

  lemma NextLogStep(s: State, e: Event)
    requires Enabled(s, e)
    ensures LogStep(s, Next(s, e), e.t, e.Run? && s.pcs[e.t] == Arriving, e.Run? && s.pcs[e.t] == Unlocking)
  {}

  lemma NextLog(s: State, e: Event)
    requires LogInv(s) && Enabled(s, e)
    ensures LogInv(Next(s, e))
  {
    NextTotal(s, e, InsideUnit);
    NextLogStep(s, e);
    StepLog(s, Next(s, e), e.t, e.Run? && s.pcs[e.t] == Arriving, e.Run? && s.pcs[e.t] == Unlocking);
  }

  lemma StepLog(s: State, s': State, t: nat, enters: bool, leaves: bool)
    requires LogInv(s) && LogStep(s, s', t, enters, leaves)
    requires Present(s') == Present(s) - InsideUnit(s.pcs[t]) + InsideUnit(s'.pcs[t])
    ensures LogInv(s')
  {
    forall i: nat
      ensures multiset(s'.arrived)[i] == multiset(s'.returned)[i] + One(i < |s'.pcs| && Inside(s'.pcs[i]))
    {
      assert multiset(s'.arrived)[i] == multiset(s.arrived)[i] + One(enters && i == t);
      assert multiset(s'.returned)[i] == multiset(s.returned)[i] + One(leaves && i == t);
    }
  }

  /** A batch whose threads had all returned before the step. */
  lemma StepSame(s: State, s': State, t: nat, enters: bool, leaves: bool, k: nat)
    requires LogStep(s, s', t, enters, leaves) && SameThreads(s, k) && s.N * k <= |s.returned|
    ensures SameThreads(s', k)
  {
    var m := s.N * k;
    if 0 <= m {
      assert s'.arrived[..m] == s.arrived[..m];
      assert s'.returned[..m] == s.returned[..m];
    }
  }

  lemma NextSame(s: State, e: Event, k: nat)
    requires Inv(s) && Enabled(s, e)
    requires Inv0(Next(s, e))
    ensures SameThreads(Next(s, e), k)
  {
    hide LogInv, CountInv, MutexInv, Total;
    var s' := Next(s, e);
    NextLogStep(s, e);
    assert SameThreads(s, k);
    if s.N * k <= |s.returned| {
      StepSame(s, s', e.t, e.Run? && s.pcs[e.t] == Arriving, e.Run? && s.pcs[e.t] == Unlocking, k);
    } else if s.N * k <= |s'.returned| {
      // the return just recorded is the last one of its batch, and it freed the mutex
      BatchOver(s', k);
    }
  }

  /** With the mutex free and N * k threads returned, everybody who arrived has returned. */
  lemma BatchOver(s: State, k: nat)
    requires Inv0(s) && s.mutex == None && s.N * k == |s.returned| && s.N * k > 0
    requires s.done == 0 ==> s.counter == 0
    ensures SameThreads(s, k)
  {
    AllBack(s, k);
    hide LogInv, CountInv, PhaseInv, MutexInv, Present, Total;
    EverybodyBack(s);
    var n := s.N * k;
    assert s.arrived[..n] == s.arrived && s.returned[..n] == s.returned;
  }

  lemma AllBack(s: State, k: nat)
    requires Inv0(s) && s.mutex == None && s.N * k == |s.returned| && s.N * k > 0
    requires s.done == 0 ==> s.counter == 0
    ensures Present(s) == 0 && |s.arrived| == |s.returned|
  {
    AtMostOneUnlocks(s);
    assert |s.returned| == s.N * s.batches - s.done;
    NotMultiple(s.N, k, s.batches, s.done);
  }

  lemma EverybodyBack(s: State)
    requires LogInv(s) && Present(s) == 0
    ensures multiset(s.arrived) == multiset(s.returned)
  {
    forall i: nat ensures multiset(s.arrived)[i] == multiset(s.returned)[i] {
      if i < |s.pcs| { TotalMember(s.pcs, InsideUnit, i); }
    }
  }

  lemma {:induction false} TotalMember(pcs: seq<PC>, f: PC -> int, i: nat)
    requires i < |pcs|
    requires forall pc :: f(pc) >= 0
    ensures 0 <= f(pcs[i]) <= Total(pcs, f)
  {
    if i > 0 { TotalMember(pcs[1..], f, i - 1); }
    else if |pcs| > 1 { TotalMember(pcs[1..], f, 0); }
  }

  lemma Scale(n: int, j: int)
    requires n > 0
    ensures j >= 1 ==> n * j >= n
    ensures j <= 0 ==> n * j <= 0
  {
    if j >= 1 { assert n * (j - 1) >= 0; } else { assert n * (-j) >= 0; }
  }

  lemma Mono(n: int, x: int, y: int)
    requires n > 0
    ensures x <= y <==> n * x <= n * y
  {
    assert n * (y - x) == n * y - n * x;
    Scale(n, y - x);
    Scale(n, x - y);
    assert n * (x - y) == n * x - n * y;
  }

  lemma NotMultiple(n: int, k: int, q: int, d: int)
    requires 0 <= d < n && n * k == n * q - d
    ensures d == 0
  {
    assert n * (q - k) == n * q - n * k;
    Scale(n, q - k);
  }

  lemma NextInv(s: State, e: Event)
    requires Inv(s) && Enabled(s, e)
    ensures Inv(Next(s, e))
  {
    NextMutex(s, e);
    NextCount(s, e);
    NextPhase(s, e);
    NextLog(s, e);
    forall k: nat ensures SameThreads(Next(s, e), k) { NextSame(s, e, k); }
  }

  lemma NextShape(s: State, e: Event)
    requires Enabled(s, e)
    ensures Next(s, e).N == s.N && |Next(s, e).pcs| == |s.pcs|
  {}

  lemma {:induction false} RunInv(s: State, es: seq<Event>, s': State)
    requires Inv(s) && Reaches(s, es, s')
    ensures Inv(s') && s'.N == s.N && |s'.pcs| == |s.pcs|
    decreases |es|
  {
    hide Inv, Enabled, Next;
    if es != [] {
      NextInv(s, es[0]);
      NextShape(s, es[0]);
      RunInv(Next(s, es[0]), es[1..], s');
    }
  }

  // ---------- safety ----------

  /** The threads numbered N*k up to N*(k+1) of a record. */
  function Block(log: seq<nat>, n: int, k: nat): seq<nat>
    requires 0 <= n * k <= n * (k + 1) <= |log|
  {
    log[n * k..n * (k + 1)]
  }

  ghost predicate Safe(s: State) {
    // nobody comes back before its batch is complete
    && (s.N >= 1 ==> |s.returned| <= s.N * s.batches <= |s.arrived| < s.N * (s.batches + 1))
    && (s.N <= 0 ==> s.returned == [])
    // nobody enters a batch before the batch ahead of it has gone
    && (forall k: nat :: Separate(s, k))
    // the N threads that come back k-th are the N threads that arrived k-th
    && (forall k: nat :: SameBlock(s, k))
    // while a batch leaves, the counter stays 0 and `done` of its waiters are still to go
    && (s.done > 0 ==> s.counter == 0 && Waiting(s) == s.done)
    // the ASSERT of the leaving phase
    && (forall i :: 0 <= i < |s.pcs| && s.pcs[i] == Departing ==> s.counter == 0)
  }

  ghost predicate Separate(s: State, k: nat) {
    s.N >= 1 && s.N * k < |s.arrived| ==> s.N * k <= |s.returned|
  }

  ghost predicate SameBlock(s: State, k: nat) {
    s.N >= 1 && s.N * (k + 1) <= |s.returned| ==>
      && 0 <= s.N * k <= s.N * (k + 1) <= |s.arrived|
      && multiset(Block(s.arrived, s.N, k)) == multiset(Block(s.returned, s.N, k))
  }

  lemma BarrierSafety(s: State, es: seq<Event>, s': State)
    requires Init(s) && Reaches(s, es, s')
    ensures Safe(s')
  {
    InitInv(s);
    RunInv(s, es, s');
    TotalMono(s'.pcs, BatchUnit, InsideUnit);
    AtMostOneUnlocks(s');
    Distribute(s'.N, s'.batches);
    forall k: nat ensures Separate(s', k) { BatchesSeparate(s', k); }
    forall k: nat ensures SameBlock(s', k) { BlocksAgree(s', k); }
  }

  lemma Distribute(n: int, k: int)
    ensures n * (k + 1) == n * k + n
  {}

  lemma AtMostOneUnlocks(s: State)
    requires MutexInv(s)
    ensures Waiting(s) <= Present(s) <= Waiting(s) + 1
    ensures (forall i :: 0 <= i < |s.pcs| ==> s.pcs[i] != Unlocking) ==> Present(s) == Waiting(s)
  {
    TotalMono(s.pcs, BatchUnit, InsideUnit);
    if i :| 0 <= i < |s.pcs| && s.pcs[i] == Unlocking {
      TotalUpdate(s.pcs, i, Outside, InsideUnit);
      TotalUpdate(s.pcs, i, Outside, BatchUnit);
      TotalMono(s.pcs[i := Outside], InsideUnit, BatchUnit);
    } else {
      TotalMono(s.pcs, InsideUnit, BatchUnit);
    }
  }

  lemma BatchesSeparate(s: State, k: nat)
    requires Inv(s)
    ensures Separate(s, k)
  {
    if s.N >= 1 && s.N * k < |s.arrived| {
      AtMostOneUnlocks(s);
      if s.counter > 0 {
        assert |s.returned| == s.N * s.batches;
      } else {
        assert |s.returned| >= s.N * s.batches - s.N;
      }
      SeparateArith(s.N, k, s.batches, s.counter, |s.returned|);
    }
  }

  lemma SeparateArith(n: int, k: int, q: int, c: int, r: int)
    requires 0 <= c < n && n * k < n * q + c
    requires if c > 0 then r == n * q else r >= n * q - n
    ensures n * k <= r
  {
    Distribute(n, q);
    Distribute(n, q - 1);
    Mono(n, q + 1, k);
    Mono(n, q, k);
    Mono(n, k, q);
    Mono(n, k, q - 1);
  }

  lemma BlocksAgree(s: State, k: nat)
    requires Inv(s)
    ensures SameBlock(s, k)
  {
    if s.N >= 1 && s.N * (k + 1) <= |s.returned| {
      Distribute(s.N, k);
      Mono(s.N, 0, k);
      assert SameThreads(s, k) && SameThreads(s, k + 1);
      BlocksOfPrefixes(s.arrived, s.returned, s.N * k, s.N * (k + 1));
    }
  }

  lemma BlocksOfPrefixes(a: seq<nat>, r: seq<nat>, m: nat, n: nat)
    requires m <= n <= |a| && n <= |r|
    requires multiset(a[..m]) == multiset(r[..m]) && multiset(a[..n]) == multiset(r[..n])
    ensures multiset(a[m..n]) == multiset(r[m..n])
  {
    assert a[..n] == a[..m] + a[m..n];
    assert r[..n] == r[..m] + r[m..n];
    assert multiset(a[..m]) + multiset(a[m..n]) == multiset(r[..m]) + multiset(r[m..n]);
    forall i ensures multiset(a[m..n])[i] == multiset(r[m..n])[i] {
      assert multiset(a[..n])[i] == multiset(a[..m])[i] + multiset(a[m..n])[i];
      assert multiset(r[..n])[i] == multiset(r[..m])[i] + multiset(r[m..n])[i];
    }
  }

  // ---------- progress ----------

  predicate CanRun(s: State) {
    exists t: nat :: t < |s.pcs| && Enabled(s, Run(t))
  }

  function InCallUnit(pc: PC): int { One(pc != Outside) }
  ghost function InCall(s: State): int { Total(s.pcs, InCallUnit) }

  /** No wakeup is lost: a thread sleeps only while the condition it waits for is false. */
  lemma NoLostWakeup(s: State, es: seq<Event>, s': State, t: nat)
    requires Init(s) && Reaches(s, es, s') && t < |s'.pcs|
    ensures s'.pcs[t] == AsleepEnter ==> s'.done > 0
    ensures s'.pcs[t] == AsleepLeave ==> s'.done == 0
  {
    InitInv(s);
    RunInv(s, es, s');
  }

  /** The program can make no step of its own exactly when everybody in the call sleeps
      in an incomplete batch. */
  lemma Stuck(s: State, es: seq<Event>, s': State)
    requires Init(s) && Reaches(s, es, s')
    ensures !CanRun(s') <==>
      s'.done == 0 && forall i :: 0 <= i < |s'.pcs| ==> s'.pcs[i] in {Outside, AsleepLeave}
  {
    InitInv(s);
    RunInv(s, es, s');
    hide LogInv, SameThreads, Total;
    if forall i :: 0 <= i < |s'.pcs| ==> s'.pcs[i] in {Outside, AsleepLeave} {
      AllAsleep(s');
    }
    if !CanRun(s') {
      NobodyAwake(s');
      if s'.done > 0 {
        // a batch that leaves has a waiter, and it does not sleep
        TotalZero(s'.pcs, BatchUnit);
        assert false;
      }
    }
  }

  lemma AllAsleep(s: State)
    requires forall i :: 0 <= i < |s.pcs| ==> s.pcs[i] in {Outside, AsleepLeave}
    ensures !CanRun(s)
  {}

  lemma NobodyAwake(s: State)
    requires Inv(s) && !CanRun(s)
    ensures s.mutex == None || forall i :: 0 <= i < |s.pcs| ==> !Holds(s.pcs[i])
    ensures forall i :: 0 <= i < |s.pcs| ==> s.pcs[i] in {Outside, AsleepEnter, AsleepLeave} || s.mutex != None
  {
    forall i | 0 <= i < |s.pcs|
      ensures !Holds(s.pcs[i])
      ensures s.pcs[i] in {Outside, AsleepEnter, AsleepLeave} || s.mutex != None
    {
      assert !Enabled(s, Run(i));
    }
  }

  /** With N threads in the call there is always a step to make. */
  lemma BarrierProgress(s: State, es: seq<Event>, s': State)
    requires Init(s) && Reaches(s, es, s')
    requires s'.N >= 1 && InCall(s') >= s'.N
    ensures CanRun(s')
  {
    InitInv(s);
    RunInv(s, es, s');
    Stuck(s, es, s');
    if !CanRun(s') {
      TotalMono(s'.pcs, InCallUnit, BatchUnit);
      assert false;
    }
  }

  // ---------- how long it takes ----------

  /** The steps a thread may still make before it sleeps or leaves, an allowance for one
      more wakeup included. */
  function Weight(pc: PC): int {
    match pc
    case Outside => 0
    case Unlocking => 1
    case Departing => 2
    case AsleepLeave => 2
    case TestOpen => 3
    case RelockLeave => 4
    case Arriving => 5
    case AsleepEnter => 5
    case TestDone => 6
    case Locking => 7
    case RelockEnter => 7
  }

  function AsleepUnit(pc: PC): int { One(Asleep(pc)) }

  ghost function Potential(s: State): int {
    Total(s.pcs, Weight) + if s.done == 0 then 2 * s.N else 0
  }

  /** Batches that have been completed and counted out. */
  function Closed(s: State): int {
    if s.done == 0 then s.batches else s.batches - 1
  }

  function Allowance(s: State): int { 2 * |s.pcs| + 2 * s.N }

  datatype Tally = Tally(calls: nat, steps: nat, wakeups: nat)

  /** How many events of each kind a run has. */
  function Tallied(es: seq<Event>): Tally {
    if es == [] then Tally(0, 0, 0)
    else
      var r := Tallied(es[1..]);
      match es[0]
      case Call(_) => r.(calls := r.calls + 1)
      case Run(_) => r.(steps := r.steps + 1)
      case Spurious(_) => r.(wakeups := r.wakeups + 1)
  }

  /** A step of the program that wakes nobody. */
  lemma QuietStep(s: State, t: nat)
    requires Enabled(s, Run(t))
    requires Program(s, t).pcs == s.pcs[t := Program(s, t).pcs[t]]
    requires Program(s, t).done == s.done && Program(s, t).batches == s.batches
    ensures Potential(Program(s, t)) + 1 <= Potential(s) && Closed(Program(s, t)) == Closed(s)
  {
    TotalUpdate(s.pcs, t, Program(s, t).pcs[t], Weight);
  }

  /** Completing a batch wakes those who sleep in it. */
  lemma OpeningStep(s: State, t: nat)
    requires Inv(s) && Enabled(s, Run(t)) && s.N >= 1
    requires s.pcs[t] == Arriving && s.counter + 1 == s.N
    ensures Potential(Program(s, t)) + 1 <= Potential(s)
    ensures Closed(s) <= Closed(Program(s, t)) <= Closed(s) + 1
  {
    TotalUpdate(Broadcast(s.pcs), t, Unlocking, Weight);
    TotalBroadcast(s.pcs, Weight, AsleepUnit, 2);
    TotalMono(s.pcs, AsleepUnit, BatchUnit);
  }

  function Always(pc: PC): int { 1 }

  lemma {:induction false} TotalAlways(pcs: seq<PC>)
    ensures Total(pcs, Always) == |pcs|
  {
    if |pcs| > 0 { TotalAlways(pcs[1..]); }
  }

  /** Counting a thread out of its batch; the last one wakes those who wait to enter. */
  lemma DepartingStep(s: State, t: nat)
    requires Inv(s) && Enabled(s, Run(t)) && s.N >= 1
    requires s.pcs[t] == Departing
    ensures Potential(Program(s, t)) + 1 <= Potential(s) + if s.done == 1 then Allowance(s) else 0
    ensures Closed(Program(s, t)) == Closed(s) + if s.done == 1 then 1 else 0
  {
    TotalUpdate(s.pcs, t, Unlocking, Weight);
    TotalUpdate(Broadcast(s.pcs), t, Unlocking, Weight);
    TotalBroadcast(s.pcs, Weight, AsleepUnit, 2);
    TotalMono(s.pcs, AsleepUnit, Always);
    TotalAlways(s.pcs);
  }

  lemma ProgramPotential(s: State, t: nat)
    requires Inv(s) && Enabled(s, Run(t)) && s.N >= 1
    ensures Closed(s) <= Closed(Program(s, t)) <= Closed(s) + 1
    ensures Potential(Program(s, t)) + 1 <=
            Potential(s) + if Closed(Program(s, t)) > Closed(s) then Allowance(s) else 0
  {
    if s.pcs[t] == Departing {
      DepartingStep(s, t);
    } else if s.pcs[t] == Arriving && s.counter + 1 == s.N {
      OpeningStep(s, t);
    } else {
      QuietStep(s, t);
    }
  }

  /** Every step of the program uses up potential, unless it ends a batch. */
  lemma NextPotential(s: State, e: Event)
    requires Inv(s) && Enabled(s, e) && s.N >= 1
    ensures Closed(s) <= Closed(Next(s, e)) <= Closed(s) + 1
    ensures Potential(Next(s, e)) + One(e.Run?) <=
            Potential(s) + 7 * One(e.Call?) + 2 * One(e.Spurious?) +
            if Closed(Next(s, e)) > Closed(s) then Allowance(s) else 0
  {
    match e
    case Call(t) => TotalUpdate(s.pcs, t, Locking, Weight);
    case Spurious(t) => TotalUpdate(s.pcs, t, Woken(s.pcs[t]), Weight);
    case Run(t) => ProgramPotential(s, t);
  }

  lemma TallyStep(es: seq<Event>)
    requires es != []
    ensures Tallied(es).calls == One(es[0].Call?) + Tallied(es[1..]).calls
    ensures Tallied(es).steps == One(es[0].Run?) + Tallied(es[1..]).steps
    ensures Tallied(es).wakeups == One(es[0].Spurious?) + Tallied(es[1..]).wakeups
  {}

  lemma AddUp(c: int, x: int, y: int, z: int, p: int, q: int, r: int,
              steps: int, given: int, step: int, gift: int)
    requires x <= y <= x + 1
    requires q + step <= p + gift + if y > x then c else 0
    requires r + steps <= q + given + c * (z - y)
    ensures r + (step + steps) <= p + (gift + given) + c * (z - x)
  {
    assert c * (z - x) == c * (z - y) + c * (y - x);
  }

  /** The steps paid for by the calls, the wakeups and the batches ended in a run. */
  ghost function Granted(s: State, es: seq<Event>, s': State): int {
    7 * Tallied(es).calls + 2 * Tallied(es).wakeups + Allowance(s) * (Closed(s') - Closed(s))
  }

  lemma GrantedStep(s: State, es: seq<Event>, m: State, s': State, p: int, q: int, r: int)
    requires es != [] && Allowance(m) == Allowance(s) && Closed(s) <= Closed(m) <= Closed(s) + 1
    requires q + One(es[0].Run?) <= p + 7 * One(es[0].Call?) + 2 * One(es[0].Spurious?) +
               if Closed(m) > Closed(s) then Allowance(s) else 0
    requires r + Tallied(es[1..]).steps <= q + Granted(m, es[1..], s')
    ensures r + Tallied(es).steps <= p + Granted(s, es, s')
  {
    TallyStep(es);
    var t := Tallied(es[1..]);
    AddUp(Allowance(s), Closed(s), Closed(m), Closed(s'), p, q, r,
          t.steps, 7 * t.calls + 2 * t.wakeups, One(es[0].Run?), 7 * One(es[0].Call?) + 2 * One(es[0].Spurious?));
  }

  /** In every run the program makes at most a fixed number of steps for each call, two
      for each spurious wakeup, and a number linear in the threads for each batch that
      ends. */
  lemma {:induction false} RunPotential(s: State, es: seq<Event>, s': State)
    requires Inv(s) && s.N >= 1 && Reaches(s, es, s')
    ensures Potential(s') + Tallied(es).steps <= Potential(s) + Granted(s, es, s')
    decreases |es|
  {
    if es == [] {
      assert Allowance(s) * (Closed(s') - Closed(s)) == 0;
    } else {
      var m := Next(s, es[0]);
      NextInv(s, es[0]);
      NextPotential(s, es[0]);
      NextShape(s, es[0]);
      RunPotential(m, es[1..], s');
      GrantedStep(s, es, m, s', Potential(s), Potential(m), Potential(s'));
    }
  }

  /** The steps of a run from the start, and of the part of a run in which no thread
      calls and no batch ends. */
  lemma BarrierSteps(s: State, es: seq<Event>, s': State, fs: seq<Event>, s'': State)
    requires Init(s) && s.N >= 1 && Reaches(s, es, s') && Reaches(s', fs, s'')
    ensures Tallied(es).steps <=
            2 * s.N + 7 * Tallied(es).calls + 2 * Tallied(es).wakeups + Allowance(s) * Closed(s')
    ensures Tallied(fs).calls == 0 && Closed(s'') == Closed(s') ==>
            Tallied(fs).steps <= 7 * |s.pcs| + 2 * s.N + 2 * Tallied(fs).wakeups
  {
    hide Inv, Reaches, Total, Tallied;
    InitInv(s);
    TotalZero(s.pcs, Weight);
    RunInv(s, es, s');
    RunInv(s', fs, s'');
    RunPotential(s, es, s');
    RunPotential(s', fs, s'');
    PotentialBounds(s');
    PotentialBounds(s'');
    if Closed(s'') == Closed(s') { assert Allowance(s') * (Closed(s'') - Closed(s')) == 0; }
  }

  // ---------- a batch that ends ----------

  /** In the call and not on the way out of it. */
  function StayingUnit(pc: PC): int { One(pc != Outside && pc != Unlocking) }
  ghost function Staying(s: State): int { Total(s.pcs, StayingUnit) }

  /** Nobody starts to leave while no batch is complete. */
  lemma StayingStep(s: State, e: Event)
    requires Inv(s) && Enabled(s, e) && s.done == 0 && Next(s, e).batches == s.batches
    ensures Next(s, e).done == 0 && Staying(Next(s, e)) >= Staying(s)
  {
    hide Next, Total, Inv0;
    OneMoves(s, e);
    TotalUpdate(s.pcs, e.t, Next(s, e).pcs[e.t], StayingUnit);
  }

  lemma OneMoves(s: State, e: Event)
    requires Inv0(s) && Enabled(s, e) && s.done == 0 && Next(s, e).batches == s.batches
    ensures var s' := Next(s, e);
      && s'.done == 0 && |s'.pcs| == |s.pcs| && s'.pcs == s.pcs[e.t := s'.pcs[e.t]]
      && StayingUnit(s'.pcs[e.t]) >= StayingUnit(s.pcs[e.t])
  {
    hide MutexInv, CountInv, LogInv, Broadcast;
    assert s.pcs[e.t] != Departing;
  }

  lemma BatchesStep(s: State, e: Event)
    requires Enabled(s, e)
    ensures s.batches <= Next(s, e).batches
  {}

  lemma {:induction false} BatchesGrow(s: State, es: seq<Event>, s': State)
    requires Reaches(s, es, s')
    ensures s.batches <= s'.batches
    decreases |es|
  {
    hide Enabled, Next;
    if es != [] {
      BatchesStep(s, es[0]);
      BatchesGrow(Next(s, es[0]), es[1..], s');
    }
  }

  lemma {:induction false} StayingRun(s: State, es: seq<Event>, s': State)
    requires Inv(s) && Reaches(s, es, s') && s.done == 0 && s'.batches == s.batches
    ensures s'.done == 0 && Staying(s') >= Staying(s)
    decreases |es|
  {
    hide Inv, Enabled, Next, Staying;
    if es != [] {
      var m := Next(s, es[0]);
      BatchesStep(s, es[0]);
      BatchesGrow(m, es[1..], s');
      NextInv(s, es[0]);
      StayingStep(s, es[0]);
      StayingRun(m, es[1..], s');
    }
  }

  /** While a batch leaves, or with N threads in the call that are not on the way out, a run
      that cannot be continued, or one without calls that is longer than a bound linear in
      the threads, has ended a batch. */
  lemma BatchEnds(s: State, es: seq<Event>, s': State, fs: seq<Event>, s'': State)
    requires Init(s) && s.N >= 1 && Reaches(s, es, s') && Reaches(s', fs, s'')
    requires s'.done > 0 || Staying(s') >= s'.N
    requires !CanRun(s'') ||
      (Tallied(fs).calls == 0 && Tallied(fs).steps > 7 * |s.pcs| + 2 * s.N + 2 * Tallied(fs).wakeups)
    ensures Closed(s'') > Closed(s')
  {
    hide Inv, Reaches, Total, Tallied, CanRun, Staying, InCall;
    InitInv(s);
    RunInv(s, es, s');
    RunInv(s', fs, s'');
    ClosedGrows(s', fs, s'');
    if !CanRun(s'') {
      ReachesOn(s, es, s', fs, s'');
      Stuck(s, es + fs, s'');
      BatchesGrow(s', fs, s'');
      if s'.done == 0 && s''.batches == s'.batches {
        StayingRun(s', fs, s'');
        StayingInCall(s'');
        BarrierProgress(s, es + fs, s'');
      }
    } else {
      BarrierSteps(s, es, s', fs, s'');
    }
  }

  lemma StayingInCall(s: State)
    ensures Staying(s) <= InCall(s)
  {
    TotalMono(s.pcs, StayingUnit, InCallUnit);
  }

  lemma {:induction false} ClosedGrows(s: State, es: seq<Event>, s': State)
    requires Inv(s) && s.N >= 1 && Reaches(s, es, s')
    ensures Closed(s) <= Closed(s')
    decreases |es|
  {
    hide Inv, Enabled, Next, Closed;
    if es != [] {
      NextInv(s, es[0]);
      NextPotential(s, es[0]);
      NextShape(s, es[0]);
      ClosedGrows(Next(s, es[0]), es[1..], s');
    }
  }

  lemma {:induction false} ReachesOn(s: State, es: seq<Event>, m: State, fs: seq<Event>, s': State)
    requires Reaches(s, es, m) && Reaches(m, fs, s')
    ensures Reaches(s, es + fs, s')
    decreases |es|
  {
    hide Enabled, Next;
    if es == [] {
      assert es + fs == fs;
    } else {
      assert (es + fs)[1..] == es[1..] + fs;
      ReachesOn(Next(s, es[0]), es[1..], m, fs, s');
    }
  }

  function Sevenfold(pc: PC): int { 7 }

  lemma {:induction false} TotalSeven(pcs: seq<PC>)
    ensures Total(pcs, Sevenfold) == 7 * |pcs|
  {
    if |pcs| > 0 { TotalSeven(pcs[1..]); }
  }

  lemma PotentialBounds(s: State)
    requires s.N >= 1
    ensures 0 <= Potential(s) <= 7 * |s.pcs| + 2 * s.N
  {
    TotalMono(s.pcs, Weight, Sevenfold);
    TotalSeven(s.pcs);
    TotalNonNegative(s.pcs, Weight);
  }

  lemma {:induction false} TotalNonNegative(pcs: seq<PC>, f: PC -> int)
    requires forall pc :: f(pc) >= 0
    ensures Total(pcs, f) >= 0
  {
    if |pcs| > 0 { TotalNonNegative(pcs[1..], f); }
  }
}
