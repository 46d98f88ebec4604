/** The functions of speevent/spe_event.c that keep the stop-event channel, as they update
    the fields of a context in place.  Each critical section that cannot block is proved to
    be a step of the transition system in StopEvents, and the reader's to be a run of it. */
module EventContexts {
  import opened Bytes
  import opened StopEvents

  class PipeEnd {
    var bytes: seq<Byte>        // written and not read yet

    constructor ()
      ensures bytes == []
    {
      bytes := [];
    }
  }

  /** What happens in one round of the loop of spe_stop_info_read, after `arrives` has been
      written by others. */
  datatype Round = Round(arrives: seq<Byte>, answer: Answered)
  datatype Answered = Interrupted | PollFails | Reads(n: nat) | ReadsNothing | ReadFails

  datatype Outcome = Done | Failed | Waiting

  class EventContext {
    var stopEventPipe: (int, int)
    var stopEventHandlerCount: int
    var stopEventBufferCount: int
    var stopEventBuffer: Record
    var handlers: set<int>      // epoll descriptors the read end is registered with

    ghost function Abs(): Channel
      reads this
    {
      Channel(stopEventPipe.0, stopEventPipe.1, stopEventHandlerCount, stopEventBufferCount, stopEventBuffer)
    }

    /** What the critical sections see of a state. */
    ghost predicate Shows(s: State)
      reads this
    {
      s.c == Abs() && s.handlers == handlers
    }

    /** The fields set by _event_spe_context_initialize */
    constructor (buffer: Record)
      ensures forall p :: Init(State(Abs(), Pipe(p, [], [], [], 0), handlers, map[], Free, false))
    {
      stopEventPipe := (-1, -1);
      stopEventHandlerCount := 0;
      stopEventBufferCount := 0;
      stopEventBuffer := buffer;
      handlers := {};
    }

    method PipeClose()
      modifies this
      ensures Abs() == Close(old(Abs())) && handlers == old(handlers)
    {
      if stopEventPipe.0 != -1 { stopEventPipe := (-1, stopEventPipe.1); }
      if stopEventPipe.1 != -1 { stopEventPipe := (stopEventPipe.0, -1); }
    }

    method PipeOpen(call: PipeCall) returns (rc: int)
      modifies this
      ensures (Abs(), rc != -1) == Open(old(Abs()), call) && handlers == old(handlers)
    {
      if call.PipeFails? { return -1; }
      if call.FcntlFails? {
        // pipe() had succeeded, and what it returned is closed again
        PipeClose();
        return -1;
      }
      stopEventPipe := (call.r, call.w);
      rc := 0;
    }

    method PipeAcquire(call: PipeCall) returns (rc: int)
      modifies this
      ensures (Abs(), rc != -1) == Acquire(old(Abs()), call) && handlers == old(handlers)
    {
      if stopEventHandlerCount == 0 {
        rc := PipeOpen(call);
        if rc == -1 { return; }
        stopEventBufferCount := 0;
      }
      stopEventHandlerCount := stopEventHandlerCount + 1;
      rc := 0;
    }

    method PipeRelease()
      modifies this
      ensures Abs() == Release(old(Abs())) && handlers == old(handlers)
    {
      stopEventHandlerCount := stopEventHandlerCount - 1;
      if stopEventHandlerCount == 0 { PipeClose(); }
    }

    /** Lines 341-364; `added` is what epoll_ctl says to a descriptor it does not have yet */
    method RegisterStop(epfd: int, call: PipeCall, added: bool, ghost s: State) returns (rc: int)
      requires Shows(s) && Enabled(s, Register(epfd, call, added))
      modifies this
      ensures Shows(Next(s, Register(epfd, call, added)))
      ensures rc == 0 <==> epfd !in old(handlers) && epfd in handlers
      ensures rc == 0 <==> added && epfd !in old(handlers) && (old(stopEventHandlerCount) != 0 || call.Opens?)
      ensures (rc == 0 || rc == -1) && handlers == if rc == 0 then old(handlers) + {epfd} else old(handlers)
    {
      rc := PipeAcquire(call);
      if rc == -1 { return -1; }
      if !added || epfd in handlers {
        PipeRelease();
        return -1;
      }
      handlers := handlers + {epfd};
      rc := 0;
    }

    /** Lines 446-458 */
    method DeregisterStop(epfd: int, removed: bool, ghost s: State) returns (rc: int)
      requires Shows(s) && Enabled(s, Deregister(epfd, removed))
      modifies this
      ensures Shows(Next(s, Deregister(epfd, removed)))
      ensures rc == 0 <==> epfd in old(handlers) && epfd !in handlers
      ensures Inv(s) ==> (rc == 0 <==> removed && epfd in old(handlers))
      ensures (rc == 0 || rc == -1) && handlers == if rc == 0 then old(handlers) - {epfd} else old(handlers)
    {
      var fd := stopEventPipe.0;
      if !removed || fd == -1 || epfd !in handlers { return -1; }
      handlers := handlers - {epfd};
      PipeRelease();
      rc := 0;
    }

    /** Lines 588-602: what a run does with the lock before it writes; fd is where it will
        write, or -1 */
    method StopLocked(t: nat, stopinfo: Record, call: PipeCall, ghost s: State) returns (fd: int)
      requires Shows(s) && Enabled(s, RunStops(t, stopinfo, call))
      modifies this
      ensures Shows(Next(s, RunStops(t, stopinfo, call)))
      ensures var s' := Next(s, RunStops(t, stopinfo, call));
        if fd == -1 then s'.flights == s.flights
        else t in s'.flights && s'.flights[t].fd == fd && s'.flights[t].record == stopinfo
    {
      fd := stopEventPipe.1;
      if fd == -1 {
        stopEventBuffer := stopinfo;
        stopEventBufferCount := 1;
        return;
      }
      var rc := PipeAcquire(call);
    }

    /** Lines 609-611 */
    method RunReleases(t: nat, ghost s: State)
      requires Shows(s) && Enabled(s, RunEnds(t))
      modifies this
      ensures Shows(Next(s, RunEnds(t)))
    {
      PipeRelease();
    }

    /** _event_spe_stop_info_read by thread t.  `arrived` is what others wrote meanwhile,
        `taken` how many bytes were read and `used` how many rounds of the loop went by.  A
        call that succeeds has read a whole record, the next one of the stream; one that
        fails has met with a read that finds nothing, or with an error, and the bytes it has
        read are gone; it waits only for a poll without an answer.  If what arrives is what
        the runs in flight write, by the events `others`, the call is a run of the
        transition system. */
    method StopInfoRead(stopinfo: array<Byte>, pipe: PipeEnd, first: Round, rounds: seq<Round>,
                        ghost s: State, ghost t: nat, ghost others: seq<seq<Event>>)
      returns (r: Outcome, ghost arrived: seq<Byte>, ghost taken: nat, ghost used: nat)
      requires stopinfo.Length == SIZE
      requires Shows(s) && s.lock.Free? && t !in s.flights && |others| == |rounds| + 1
      modifies this, stopinfo, pipe
      ensures old(stopEventPipe.0) == -1 ==>
        && pipe.bytes == old(pipe.bytes) && handlers == old(handlers)
        && (if old(stopEventBufferCount) != 0
            then r == Done && stopinfo[..] == old(stopEventBuffer)
                 && Abs() == old(Abs()).(bufferCount := old(stopEventBufferCount) - 1)
            else r == Failed && Abs() == old(Abs()) && stopinfo[..] == old(stopinfo[..]))
        && forall n :: Enabled(s, ReadBegins(t, n)) && Shows(Next(s, ReadBegins(t, n)))
             && Answer(s, n) == if r == Done then [stopinfo[..]] else []
      ensures old(stopEventPipe.0) != -1 ==>
        && Abs() == old(Abs()) && handlers == old(handlers)
        && used <= |rounds| && arrived == Arrivals(first, rounds[..used])
        && ReadUpTo(stopinfo[..], pipe.bytes, old(pipe.bytes) + arrived, taken)
        && (r == Done <==> taken == SIZE)
        && Ended(r, taken, used, |old(pipe.bytes)|, first, rounds)
        && (s.pipe.bytes == old(pipe.bytes) && Genuine(s, t, first, rounds, others, used) ==>
             IsRun(s, t, first, rounds, others, used, r, stopinfo[..], pipe.bytes, taken)
             && Shows(Reached(s, t, first, rounds, others, used)))
    {
      arrived, taken, used := [], 0, 0;
      if stopEventPipe.0 == -1 {
        if stopEventBufferCount == 0 { return Failed, [], 0, 0; }
        forall i | 0 <= i < SIZE { stopinfo[i] := stopEventBuffer[i]; }
        stopEventBufferCount := stopEventBufferCount - 1;
        return Done, [], 0, 0;
      }
      hide Arrivals, AfterRounds, ReadUpTo, Genuine, IsRun, Reached, Ended;
      ghost var was := pipe.bytes;
      r, arrived, taken, used := ReadPipe(stopinfo, pipe, first, rounds);
      if s.pipe.bytes == was && Genuine(s, t, first, rounds, others, used) {
        ReadIsRun(s, t, first, rounds, others, used, r, stopinfo[..], pipe.bytes, taken);
      }
    }

    /** Lines 160-192, with the pipe open */
    method ReadPipe(stopinfo: array<Byte>, pipe: PipeEnd, first: Round, rounds: seq<Round>)
      returns (r: Outcome, ghost arrived: seq<Byte>, ghost taken: nat, ghost used: nat)
      requires stopinfo.Length == SIZE
      modifies stopinfo, pipe
      ensures used <= |rounds| && arrived == Arrivals(first, rounds[..used])
      ensures ReadUpTo(stopinfo[..], pipe.bytes, old(pipe.bytes) + arrived, taken)
      ensures (r == Done <==> taken == SIZE) && Ended(r, taken, used, |old(pipe.bytes)|, first, rounds)
    {
      hide Arrivals, AfterRounds, AfterRound, ReadUpTo;
      arrived, taken, used := [], 0, 0;
      ghost var was := pipe.bytes;
      NothingRead(stopinfo[..], was + first.arrives);
      RoundsNone(first, rounds, |was|);
      pipe.bytes := pipe.bytes + first.arrives;
      arrived := first.arrives;
      if !first.answer.Reads? || pipe.bytes == [] { return Failed, arrived, 0, 0; }
      var total := ReadSome(stopinfo, pipe, 0, first.answer.n, was + arrived);
      FirstRead(|was|, first);
      taken := total;
      var i := 0;
      while total < SIZE
        invariant 0 <= i == used <= |rounds| && 0 <= total == taken <= SIZE
        invariant arrived == Arrivals(first, rounds[..i])
        invariant ReadUpTo(stopinfo[..], pipe.bytes, was + arrived, total)
        invariant AfterRounds(|was|, first, rounds[..i]) == Count(total, |pipe.bytes|)
        invariant forall j :: 0 <= j < i ==> !Breaks(rounds[j]) && AfterRounds(|was|, first, rounds[..j]).taken < SIZE
        decreases |rounds| - i
      {
        if i == |rounds| { return Waiting, arrived, taken, used; }
        RoundsStep(first, rounds, i, |was|);
        var more, broke := ReadRound(stopinfo, pipe, total, rounds[i], was, arrived);
        arrived := arrived + rounds[i].arrives;
        total, taken := more, more;
        i, used := i + 1, used + 1;
        if broke { return Failed, arrived, taken, used; }
      }
      r := Done;
    }
  }

  // ---------- what the rounds of a read come to ----------

  /** Bytes in the caller's record and bytes left in the pipe. */
  datatype Count = Count(taken: nat, left: nat)

  /** A read moves what it is asked for, but a byte at least, what is missing and what
      there is at most. */
  function Moves(n: nat, missing: nat, left: nat): nat {
    var want := if n < 1 then 1 else n;
    var most := if missing < left then missing else left;
    if want < most then want else most
  }

  function AfterRound(c: Count, round: Round): Count
    requires c.taken <= SIZE
  {
    var left := c.left + |round.arrives|;
    match round.answer
    case Reads(n) =>
      var rc := Moves(n, SIZE - c.taken, left);
      Count(c.taken + rc, left - rc)
    case _ => Count(c.taken, left)
  }

  /** With so many bytes in the pipe before: the first read and some rounds of the loop. */
  function AfterRounds(before: nat, first: Round, rounds: seq<Round>): (c: Count)
    ensures c.taken <= SIZE
  {
    if |rounds| == 0 then AfterRound(Count(0, before), first)
    else AfterRound(AfterRounds(before, first, rounds[..|rounds| - 1]), rounds[|rounds| - 1])
  }

  function Arrivals(first: Round, rounds: seq<Round>): seq<Byte> {
    if |rounds| == 0 then first.arrives
    else Arrivals(first, rounds[..|rounds| - 1]) + rounds[|rounds| - 1].arrives
  }

  /** The two errors that end the loop; EINTR and EAGAIN do not. */
  predicate Breaks(round: Round) { round.answer.PollFails? || round.answer.ReadFails? }

  predicate FirstFails(before: nat, first: Round) {
    !first.answer.Reads? || before + |first.arrives| == 0
  }

  /** How many bytes a call has read when it ends, and why it ends there. */
  ghost predicate Ended(r: Outcome, taken: nat, used: nat, before: nat, first: Round, rounds: seq<Round>)
    requires used <= |rounds|
  {
    if FirstFails(before, first) then r == Failed && taken == used == 0
    else
      && taken == AfterRounds(before, first, rounds[..used]).taken
      && (forall j :: 0 <= j < used ==> AfterRounds(before, first, rounds[..j]).taken < SIZE)
      && (forall j :: 0 <= j < used - 1 ==> !Breaks(rounds[j]))
      && match r
         case Done => taken == SIZE && (used > 0 ==> !Breaks(rounds[used - 1]))
         case Failed => used > 0 && Breaks(rounds[used - 1])
         case Waiting => used == |rounds| && (used > 0 ==> !Breaks(rounds[used - 1]))
  }

  // ---------- a read as a run of the transition system ----------

  /** The events one after the other, as far as they can happen. */
  function Perform(s: State, es: seq<Event>): State {
    if |es| == 0 then s
    else
      var m, e := Perform(s, es[..|es| - 1]), es[|es| - 1];
      if Enabled(m, e) then Next(m, e) else m
  }

  /** The reader's own event in the first read, if it finds something ... */
  function FirstEvent(m: State, t: nat, first: Round): seq<Event> {
    match first.answer
    case Reads(n) => if m.pipe.bytes == [] then [] else [ReadBegins(t, Moves(n, SIZE, |m.pipe.bytes|))]
    case _ => []
  }

  function Missing(m: State): nat {
    if m.lock.Reading? && |m.lock.partial| < SIZE then SIZE - |m.lock.partial| else 0
  }

  /** ... and in a round of the loop. */
  function RoundEvent(m: State, round: Round): seq<Event> {
    match round.answer
    case Reads(n) =>
      if m.pipe.bytes == [] then []
      else [ReadGoesOn(Moves(n, Missing(m), |m.pipe.bytes|))]
    case Interrupted => []
    case ReadsNothing => []
    case _ => [Event.ReadFails]
  }

  /** The events of the first read and i rounds: those of others, then the reader's own. */
  function Events(s: State, t: nat, first: Round, rounds: seq<Round>, others: seq<seq<Event>>, i: nat): seq<Event>
    requires i <= |rounds| < |others|
    decreases i, 0
  {
    if i == 0 then others[0] + FirstEvent(Perform(s, others[0]), t, first)
    else
      Events(s, t, first, rounds, others, i - 1) +
      (others[i] + RoundEvent(Perform(Reached(s, t, first, rounds, others, i - 1), others[i]), rounds[i - 1]))
  }

  function Reached(s: State, t: nat, first: Round, rounds: seq<Round>, others: seq<seq<Event>>, i: nat): State
    requires i <= |rounds| < |others|
    decreases i, 1
  {
    Perform(s, Events(s, t, first, rounds, others, i))
  }

  /** Others only write, and what they write is what arrives. */
  ghost predicate Arrive(m: State, es: seq<Event>, bytes: seq<Byte>) {
    && (forall e :: e in es ==> e.Write?)
    && Reaches(m, es, Perform(m, es))
    && Perform(m, es).pipe.bytes == m.pipe.bytes + bytes
  }

  ghost predicate Genuine(s: State, t: nat, first: Round, rounds: seq<Round>, others: seq<seq<Event>>, i: nat)
    requires i <= |rounds| < |others|
  {
    if i == 0 then Arrive(s, others[0], first.arrives)
    else
      && Genuine(s, t, first, rounds, others, i - 1)
      && Arrive(Reached(s, t, first, rounds, others, i - 1), others[i], rounds[i - 1].arrives)
  }

  /** The call is a run of the system: a success adds the record to those returned, a failure
      drops what was read, and a call that waits holds the lock with it. */
  ghost predicate IsRun(s: State, t: nat, first: Round, rounds: seq<Round>, others: seq<seq<Event>>, i: nat,
                        r: Outcome, record: seq<Byte>, left: seq<Byte>, taken: nat)
    requires i <= |rounds| < |others|
  {
    var s' := Reached(s, t, first, rounds, others, i);
    && Reaches(s, Events(s, t, first, rounds, others, i), s')
    && s'.pipe.bytes == left && taken <= |record| == SIZE
    && match r
       case Done => s'.lock == Free && s'.pipe.got == s.pipe.got + [record] && s'.pipe.lost == s.pipe.lost
       case Failed => s'.lock == Free && s'.pipe.got == s.pipe.got && s'.pipe.lost == s.pipe.lost + taken
       case Waiting =>
         s'.lock == Reading(t, record[..taken]) && s'.pipe.got == s.pipe.got && s'.pipe.lost == s.pipe.lost
  }

  /** Where a reader stands that has read so many bytes of the stream. */
  ghost predicate Stands(s: State, m: State, t: nat, stream: seq<Byte>, taken: nat) {
    && m.c == s.c && m.handlers == s.handlers && m.flights.Keys == s.flights.Keys && m.pipe.lost == s.pipe.lost
    && taken <= |stream| && m.pipe.bytes == stream[taken..]
    && (taken == 0 ==> m.lock == Free && m.pipe.got == s.pipe.got)
    && (0 < taken < SIZE ==> m.lock == Reading(t, stream[..taken]) && m.pipe.got == s.pipe.got)
    && (taken >= SIZE ==> taken == SIZE && m.lock == Free && m.pipe.got == s.pipe.got + [stream[..SIZE]])
  }

  lemma {:induction false} PerformPlus(s: State, a: seq<Event>, b: seq<Event>)
    ensures Perform(s, a + b) == Perform(Perform(s, a), b)
  {
    hide Enabled, Next;
    if |b| == 0 {
      assert a + b == a;
    } else {
      assert (a + b)[..|a + b| - 1] == a + b[..|b| - 1];
      PerformPlus(s, a, b[..|b| - 1]);
    }
  }

  lemma PerformOne(s: State, e: Event)
    requires Enabled(s, e)
    ensures Perform(s, [e]) == Next(s, e) && Reaches(s, [e], Next(s, e))
  {
    hide Enabled, Next;
    assert Perform(s, [e][..0]) == s && [e][1..] == [];
    assert Reaches(Next(s, e), [], Next(s, e));
  }

  /** The steps of others leave alone what is the reader's. */
  lemma {:induction false} WritesKeep(m: State, es: seq<Event>, m': State)
    requires (forall e :: e in es ==> e.Write?) && Reaches(m, es, m')
    ensures m'.c == m.c && m'.handlers == m.handlers && m'.flights.Keys == m.flights.Keys && m'.lock == m.lock
    ensures m'.pipe.got == m.pipe.got && m'.pipe.lost == m.pipe.lost
    decreases |es|
  {
    if es != [] {
      assert es[0] in es && forall e :: e in es[1..] ==> e in es;
      OneWriteKeeps(m, es[0]);
      hide Enabled, Next;
      WritesKeep(Next(m, es[0]), es[1..], m');
    }
  }

  lemma OneWriteKeeps(m: State, e: Event)
    requires e.Write? && Enabled(m, e)
    ensures var m' := Next(m, e);
      && m'.c == m.c && m'.handlers == m.handlers && m'.flights.Keys == m.flights.Keys && m'.lock == m.lock
      && m'.pipe.got == m.pipe.got && m'.pipe.lost == m.pipe.lost
  {}

  lemma StandsOn(s: State, m: State, t: nat, stream: seq<Byte>, taken: nat, es: seq<Event>, bytes: seq<Byte>)
    requires Stands(s, m, t, stream, taken) && Arrive(m, es, bytes)
    ensures Stands(s, Perform(m, es), t, stream + bytes, taken)
  {
    hide Perform, Reaches;
    WritesKeep(m, es, Perform(m, es));
    assert (stream + bytes)[taken..] == stream[taken..] + bytes;
    assert (stream + bytes)[..taken] == stream[..taken];
    if taken == SIZE { assert (stream + bytes)[..SIZE] == stream[..SIZE]; }
  }

  /** A read moves the reader on: the first one ... */
  lemma FirstMoves(s: State, m: State, t: nat, stream: seq<Byte>, first: Round)
    requires Stands(s, m, t, stream, 0) && t !in s.flights && s.c.fdRead != -1
    requires first.answer.Reads? && stream != []
    ensures var n := Moves(first.answer.n, SIZE, |stream|); var e := ReadBegins(t, n);
      FirstEvent(m, t, first) == [e] && Enabled(m, e) && Stands(s, Next(m, e), t, stream, n)
  {
    var n := Moves(first.answer.n, SIZE, |stream|);
    assert m.pipe.bytes == stream;
    assert [] + stream[..n] == stream[..n];
    if n == SIZE { assert stream[..n] == stream[..SIZE]; }
  }

  /** ... and the others. */
  lemma RoundMoves(s: State, m: State, t: nat, stream: seq<Byte>, taken: nat, round: Round)
    requires Stands(s, m, t, stream, taken) && 0 < taken < SIZE && round.answer.Reads? && taken < |stream|
    ensures var n := Moves(round.answer.n, SIZE - taken, |stream| - taken); var e := ReadGoesOn(n);
      RoundEvent(m, round) == [e] && Enabled(m, e) && Stands(s, Next(m, e), t, stream, taken + n)
  {
    var n := Moves(round.answer.n, SIZE - taken, |stream| - taken);
    assert stream[..taken] + stream[taken..][..n] == stream[..taken + n];
    assert stream[taken..][n..] == stream[taken + n..];
    assert m.pipe.bytes == stream[taken..] && m.lock == Reading(t, stream[..taken]) && |stream[..taken]| == taken;
    if taken + n == SIZE { assert stream[..taken + n] == stream[..SIZE]; }
  }

  lemma RoundBreaks(s: State, m: State, t: nat, stream: seq<Byte>, taken: nat, round: Round)
    requires Stands(s, m, t, stream, taken) && 0 < taken < SIZE && Breaks(round)
    ensures RoundEvent(m, round) == [Event.ReadFails] && Enabled(m, Event.ReadFails)
    ensures var m' := Next(m, Event.ReadFails);
      && m'.c == s.c && m'.handlers == s.handlers && m'.lock == Free && m'.pipe.bytes == stream[taken..]
      && m'.pipe.got == s.pipe.got && m'.pipe.lost == s.pipe.lost + taken
  {}

  /** Every byte of the stream has been read or is left. */
  lemma {:induction false} CountsAdd(before: nat, first: Round, rounds: seq<Round>)
    ensures var c := AfterRounds(before, first, rounds); c.taken + c.left == before + |Arrivals(first, rounds)|
  {
    if |rounds| > 0 { CountsAdd(before, first, rounds[..|rounds| - 1]); }
  }

  lemma Extended(s: State, a: seq<Event>, m: State, b: seq<Event>)
    requires Reaches(s, a, m) && m == Perform(s, a) && Reaches(m, b, Perform(m, b))
    ensures Reaches(s, a + b, Perform(s, a + b)) && Perform(s, a + b) == Perform(m, b)
  {
    PerformPlus(s, a, b);
    Join(s, a, m, b, Perform(m, b));
  }

  /** The state in which a read begins. */
  predicate CanRead(s: State, t: nat) { s.lock.Free? && t !in s.flights && s.c.fdRead != -1 }

  lemma FirstIsStep(s: State, t: nat, first: Round, rounds: seq<Round>, others: seq<seq<Event>>)
    requires |rounds| < |others| && Genuine(s, t, first, rounds, others, 0) && CanRead(s, t)
    requires !FirstFails(|s.pipe.bytes|, first)
    ensures Reaches(s, Events(s, t, first, rounds, others, 0), Reached(s, t, first, rounds, others, 0))
    ensures Stands(s, Reached(s, t, first, rounds, others, 0), t, s.pipe.bytes + first.arrives,
                   Moves(first.answer.n, SIZE, |s.pipe.bytes| + |first.arrives|))
  {
    hide Perform, Enabled, Next, Reaches, FirstEvent;
    var m, stream := Perform(s, others[0]), s.pipe.bytes + first.arrives;
    assert Stands(s, s, t, s.pipe.bytes, 0);
    StandsOn(s, s, t, s.pipe.bytes, 0, others[0], first.arrives);
    hide Stands, Moves;
    FirstMoves(s, m, t, stream, first);
    PerformOne(m, FirstEvent(m, t, first)[0]);
    Extended(s, others[0], m, FirstEvent(m, t, first));
  }

  /** A round that does not end the loop. */
  lemma RoundStands(s: State, u: State, t: nat, es: seq<Event>, stream: seq<Byte>, taken: nat, round: Round)
    requires Stands(s, u, t, stream, taken) && Arrive(u, es, round.arrives)
    requires 0 < taken < SIZE && !Breaks(round) && taken <= |stream|
    ensures var m := Perform(u, es); var e := RoundEvent(m, round);
      && Reaches(m, e, Perform(m, e))
      && Stands(s, Perform(m, e), t, stream + round.arrives, AfterRound(Count(taken, |stream| - taken), round).taken)
  {
    hide Perform, Enabled, Next, Reaches, RoundEvent, AfterRound;
    var m, all := Perform(u, es), stream + round.arrives;
    RoundCounts(taken, |stream| - taken, round);
    StandsOn(s, u, t, stream, taken, es, round.arrives);
    if round.answer.Reads? && taken < |all| {
      hide Stands, Moves, Arrive;
      RoundMoves(s, m, t, all, taken, round);
      PerformOne(m, RoundEvent(m, round)[0]);
    } else {
      NoEvent(m, round);
    }
  }

  lemma RoundIsStep(s: State, t: nat, first: Round, rounds: seq<Round>, others: seq<seq<Event>>, i: nat,
                    stream: seq<Byte>, taken: nat)
    requires 0 < i <= |rounds| < |others| && Genuine(s, t, first, rounds, others, i)
    requires var m := Reached(s, t, first, rounds, others, i - 1);
      Reaches(s, Events(s, t, first, rounds, others, i - 1), m) && Stands(s, m, t, stream, taken)
    requires 0 < taken < SIZE && taken <= |stream| && !Breaks(rounds[i - 1])
    ensures Reaches(s, Events(s, t, first, rounds, others, i), Reached(s, t, first, rounds, others, i))
    ensures var round := rounds[i - 1];
      Stands(s, Reached(s, t, first, rounds, others, i), t, stream + round.arrives,
             AfterRound(Count(taken, |stream| - taken), round).taken)
  {
    hide Perform, Reaches, RoundEvent, Stands, AfterRound, Breaks;
    var u, round := Reached(s, t, first, rounds, others, i - 1), rounds[i - 1];
    var m, before := Perform(u, others[i]), Events(s, t, first, rounds, others, i - 1);
    RoundStands(s, u, t, others[i], stream, taken, round);
    Extended(s, before, u, others[i]);
    Extended(s, before + others[i], m, RoundEvent(m, round));
    assert before + others[i] + RoundEvent(m, round) == before + (others[i] + RoundEvent(m, round));
  }

  lemma RoundCounts(taken: nat, left: nat, round: Round)
    requires taken < SIZE && !Breaks(round)
    ensures var all := left + |round.arrives|;
      AfterRound(Count(taken, left), round).taken ==
        if round.answer.Reads? && all > 0 then taken + Moves(round.answer.n, SIZE - taken, all) else taken
  {}

  lemma NoEvent(m: State, round: Round)
    requires !Breaks(round) && (round.answer.Reads? ==> m.pipe.bytes == [])
    ensures RoundEvent(m, round) == [] && Perform(m, []) == m && Reaches(m, [], m)
  {}

  lemma {:induction false} Progress(s: State, t: nat, first: Round, rounds: seq<Round>, others: seq<seq<Event>>, i: nat)
    requires i <= |rounds| < |others| && Genuine(s, t, first, rounds, others, i) && CanRead(s, t)
    requires !FirstFails(|s.pipe.bytes|, first)
    requires forall j :: 0 <= j < i ==>
      !Breaks(rounds[j]) && AfterRounds(|s.pipe.bytes|, first, rounds[..j]).taken < SIZE
    ensures Reaches(s, Events(s, t, first, rounds, others, i), Reached(s, t, first, rounds, others, i))
    ensures AfterRounds(|s.pipe.bytes|, first, rounds[..i]).taken > 0
    ensures Stands(s, Reached(s, t, first, rounds, others, i), t, s.pipe.bytes + Arrivals(first, rounds[..i]),
                   AfterRounds(|s.pipe.bytes|, first, rounds[..i]).taken)
  {
    hide Events, Reached, Stands, Reaches, AfterRounds, Arrivals, Breaks;
    var before := |s.pipe.bytes|;
    if i == 0 {
      RoundsNone(first, rounds, before);
      FirstRead(before, first);
      FirstIsStep(s, t, first, rounds, others);
    } else {
      Progress(s, t, first, rounds, others, i - 1);
      var c, stream := AfterRounds(before, first, rounds[..i - 1]), s.pipe.bytes + Arrivals(first, rounds[..i - 1]);
      CountsAdd(before, first, rounds[..i - 1]);
      StandsWithin(s, Reached(s, t, first, rounds, others, i - 1), t, stream, c.taken);
      RoundsStep(first, rounds, i - 1, before);
      RoundIsStep(s, t, first, rounds, others, i, stream, c.taken);
      assert stream + rounds[i - 1].arrives == s.pipe.bytes + Arrivals(first, rounds[..i]);
    }
  }

  /** The contract of a call that reads from the pipe makes it a run of the system. */
  lemma ReadIsRun(s: State, t: nat, first: Round, rounds: seq<Round>, others: seq<seq<Event>>, used: nat,
                  r: Outcome, record: seq<Byte>, left: seq<Byte>, taken: nat)
    requires used <= |rounds| < |others| && Genuine(s, t, first, rounds, others, used) && CanRead(s, t)
    requires ReadUpTo(record, left, s.pipe.bytes + Arrivals(first, rounds[..used]), taken)
    requires (r == Done <==> taken == SIZE) && Ended(r, taken, used, |s.pipe.bytes|, first, rounds)
    ensures IsRun(s, t, first, rounds, others, used, r, record, left, taken)
    ensures var s' := Reached(s, t, first, rounds, others, used); s'.c == s.c && s'.handlers == s.handlers
  {
    if FirstFails(|s.pipe.bytes|, first) {
      NothingFound(s, t, first, rounds, others);
      RoundsNone(first, rounds, |s.pipe.bytes|);
    } else if r.Failed? {
      hide Reached, Events, Genuine, AfterRounds, Arrivals;
      BrokenOff(s, t, first, rounds, others, used, taken);
    } else {
      hide Reached, Events, Genuine, AfterRounds, Arrivals, Breaks;
      Progress(s, t, first, rounds, others, used);
      Finished(s, Reached(s, t, first, rounds, others, used), t, s.pipe.bytes + Arrivals(first, rounds[..used]),
               record, left, taken);
    }
  }

  /** A reader that stands somewhere in the stream has the bytes the caller sees. */
  lemma Finished(s: State, m: State, t: nat, stream: seq<Byte>, record: seq<Byte>, left: seq<Byte>, taken: nat)
    requires Stands(s, m, t, stream, taken) && ReadUpTo(record, left, stream, taken) && taken > 0
    ensures m.c == s.c && m.handlers == s.handlers && m.pipe.bytes == left && taken <= |record| == SIZE
    ensures m.pipe.lost == s.pipe.lost
    ensures taken == SIZE ==> m.lock == Free && m.pipe.got == s.pipe.got + [record]
    ensures taken < SIZE ==> m.lock == Reading(t, record[..taken]) && m.pipe.got == s.pipe.got
  {
    if taken == SIZE { assert record == record[..SIZE] == stream[..SIZE]; }
  }

  lemma NothingFound(s: State, t: nat, first: Round, rounds: seq<Round>, others: seq<seq<Event>>)
    requires |rounds| < |others| && Genuine(s, t, first, rounds, others, 0) && CanRead(s, t)
    requires FirstFails(|s.pipe.bytes|, first)
    ensures var s' := Reached(s, t, first, rounds, others, 0);
      && Reaches(s, Events(s, t, first, rounds, others, 0), s')
      && s'.c == s.c && s'.handlers == s.handlers && s'.lock == Free && s'.pipe.bytes == s.pipe.bytes + first.arrives
      && s'.pipe.got == s.pipe.got && s'.pipe.lost == s.pipe.lost
  {
    hide Perform, Reaches;
    WritesKeep(s, others[0], Perform(s, others[0]));
    assert others[0] + [] == others[0];
  }

  lemma BrokenOff(s: State, t: nat, first: Round, rounds: seq<Round>, others: seq<seq<Event>>, used: nat, taken: nat)
    requires used <= |rounds| < |others| && Genuine(s, t, first, rounds, others, used) && CanRead(s, t)
    requires !FirstFails(|s.pipe.bytes|, first) && taken != SIZE
    requires Ended(Failed, taken, used, |s.pipe.bytes|, first, rounds)
    ensures var s' := Reached(s, t, first, rounds, others, used);
      var stream := s.pipe.bytes + Arrivals(first, rounds[..used]);
      && Reaches(s, Events(s, t, first, rounds, others, used), s')
      && s'.c == s.c && s'.handlers == s.handlers && s'.lock == Free
      && taken <= |stream| && s'.pipe.bytes == stream[taken..]
      && s'.pipe.got == s.pipe.got && s'.pipe.lost == s.pipe.lost + taken
  {
    hide Perform, Enabled, Next, Reaches, RoundEvent, Stands, AfterRounds, Arrivals;
    var before, i := |s.pipe.bytes|, used - 1;
    var round, stream := rounds[i], s.pipe.bytes + Arrivals(first, rounds[..i]);
    Progress(s, t, first, rounds, others, i);
    RoundsStep(first, rounds, i, before);
    var u, es := Reached(s, t, first, rounds, others, i), Events(s, t, first, rounds, others, i);
    var m := Perform(u, others[used]);
    StandsOn(s, u, t, stream, taken, others[used], round.arrives);
    assert stream + round.arrives == s.pipe.bytes + Arrivals(first, rounds[..used]);
    Extended(s, es, u, others[used]);
    RoundBreaks(s, m, t, stream + round.arrives, taken, round);
    PerformOne(m, Event.ReadFails);
    Extended(s, es + others[used], m, [Event.ReadFails]);
    assert es + others[used] + [Event.ReadFails] == es + (others[used] + [Event.ReadFails]);
    StandsWithin(s, u, t, stream, taken);
  }

  lemma StandsWithin(s: State, m: State, t: nat, stream: seq<Byte>, taken: nat)
    requires Stands(s, m, t, stream, taken)
    ensures taken <= |stream|
  {}

  lemma RoundsNone(first: Round, rounds: seq<Round>, before: nat)
    ensures rounds[..0] == [] && Arrivals(first, rounds[..0]) == first.arrives
    ensures AfterRounds(before, first, rounds[..0]) == AfterRound(Count(0, before), first)
  {}

  lemma FirstRead(before: nat, first: Round)
    requires first.answer.Reads?
    ensures AfterRound(Count(0, before), first) ==
      var rc := Moves(first.answer.n, SIZE, before + |first.arrives|); Count(rc, before + |first.arrives| - rc)
  {}

  lemma RoundsStep(first: Round, rounds: seq<Round>, i: nat, before: nat)
    requires i < |rounds|
    ensures Arrivals(first, rounds[..i + 1]) == Arrivals(first, rounds[..i]) + rounds[i].arrives
    ensures AfterRounds(before, first, rounds[..i + 1]) ==
      AfterRound(AfterRounds(before, first, rounds[..i]), rounds[i])
  {
    assert rounds[..i + 1][..i] == rounds[..i];
  }

  lemma NothingRead(record: seq<Byte>, stream: seq<Byte>)
    requires |record| == SIZE
    ensures ReadUpTo(record, stream, stream, 0)
  {}

  /** n bytes of the stream are in the caller's record and the rest is still in the pipe. */
  ghost predicate ReadUpTo(record: seq<Byte>, left: seq<Byte>, stream: seq<Byte>, n: nat) {
    n <= |record| == SIZE && n <= |stream| && record[..n] == stream[..n] && left == stream[n..]
  }

  lemma MoreArrives(record: seq<Byte>, left: seq<Byte>, was: seq<Byte>, arrived: seq<Byte>, more: seq<Byte>, n: nat)
    requires ReadUpTo(record, left, was + arrived, n)
    ensures ReadUpTo(record, left + more, was + (arrived + more), n)
  {
    assert was + (arrived + more) == (was + arrived) + more;
  }

  /** read() of what is missing: at least one byte, at most what there is and what is asked
      for */
  method ReadSome(record: array<Byte>, pipe: PipeEnd, total: nat, n: nat, ghost stream: seq<Byte>) returns (rc: nat)
    requires total < SIZE == record.Length && pipe.bytes != [] && ReadUpTo(record[..], pipe.bytes, stream, total)
    modifies record, pipe
    ensures rc == Moves(n, SIZE - total, |old(pipe.bytes)|) > 0 && |pipe.bytes| == |old(pipe.bytes)| - rc
    ensures ReadUpTo(record[..], pipe.bytes, stream, total + rc)
  {
    rc := if n < 1 then 1 else n;
    if rc > SIZE - total { rc := SIZE - total; }
    if rc > |pipe.bytes| { rc := |pipe.bytes|; }
    ghost var before := record[..];
    CopyIn(record, total, pipe.bytes[..rc]);
    Reassemble(before, record[..], pipe.bytes, stream, total, rc);
    pipe.bytes := pipe.bytes[rc..];
  }

  /** Lines 168-187: one round of the loop; `broke` for an error that ends it */
  method ReadRound(record: array<Byte>, pipe: PipeEnd, total: nat, round: Round, ghost was: seq<Byte>,
                   ghost arrived: seq<Byte>)
    returns (total': nat, broke: bool)
    requires total < SIZE == record.Length && ReadUpTo(record[..], pipe.bytes, was + arrived, total)
    modifies record, pipe
    ensures Count(total', |pipe.bytes|) == AfterRound(Count(total, |old(pipe.bytes)|), round)
    ensures ReadUpTo(record[..], pipe.bytes, was + (arrived + round.arrives), total')
    ensures (broke <==> Breaks(round)) && (broke ==> total' == total)
  {
    hide ReadUpTo;
    total', broke := total, false;
    MoreArrives(record[..], pipe.bytes, was, arrived, round.arrives, total);
    pipe.bytes := pipe.bytes + round.arrives;
    match round.answer {
      case Interrupted =>
      case PollFails => broke := true;
      case ReadsNothing =>
      case ReadFails => broke := true;
      case Reads(n) =>
        if pipe.bytes != [] {
          var rc := ReadSome(record, pipe, total, n, was + (arrived + round.arrives));
          total' := total + rc;
        }
    }
  }

  lemma Reassemble(before: seq<Byte>, after: seq<Byte>, left: seq<Byte>, stream: seq<Byte>, total: nat, rc: nat)
    requires ReadUpTo(before, left, stream, total) && rc <= |left| && total + rc <= SIZE
    requires after == before[..total] + left[..rc] + before[total + rc..]
    ensures ReadUpTo(after, left[rc..], stream, total + rc)
  {
    assert after[..total + rc] == before[..total] + left[..rc];
    assert stream[..total + rc] == stream[..total] + stream[total..][..rc];
    assert stream[total..][rc..] == stream[total + rc..];
  }
}
