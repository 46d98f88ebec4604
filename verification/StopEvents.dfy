/** The stop-event channel of speevent/spe_event.c.

    While a stop-event handler is registered, every run of the context writes a record of
    its stop to a pipe, from which spe_stop_info_read takes it.  The pipe is counted: each
    registration holds it open, and so does a run from the moment it has looked up the
    descriptor until it has written, because the write itself happens without the lock.
    Without a handler the last record goes to a buffer of one slot.

    The channel is a transition system.  Critical sections of stop_event_lock that cannot
    block are one step each; the reader, which may have to wait for the rest of a record
    while it holds the lock, makes one step a read. */
module StopEvents {
  import opened Bytes

  /** sizeof(spe_stop_info_t) */
  const SIZE: nat := 24
  type Record = r: seq<Byte> | |r| == SIZE witness seq(SIZE, i => 0)

  // ---------- the fields of spe_context_event_priv_t ----------

  datatype Channel = Channel(fdRead: int, fdWrite: int, count: int, bufferCount: int, buffer: Record)

  /** What pipe() and fcntl() do when a pipe is opened. */
  datatype PipeCall = PipeFails | FcntlFails | Opens(r: int, w: int)

  predicate ValidCall(k: PipeCall) { k.Opens? ==> k.r >= 0 && k.w >= 0 && k.r != k.w }

  /** stop_event_pipe_close */
  function Close(c: Channel): Channel { c.(fdRead := -1, fdWrite := -1) }

  /** stop_event_pipe_open; false for -1 */
  function Open(c: Channel, k: PipeCall): (r: (Channel, bool)) {
    match k
    case PipeFails => (c, false)
    case FcntlFails => (Close(c), false)
    case Opens(r, w) => (c.(fdRead := r, fdWrite := w), true)
  }

  /** stop_event_pipe_acquire */
  function Acquire(c: Channel, k: PipeCall): (r: (Channel, bool)) {
    if c.count == 0 then
      var (o, ok) := Open(c, k);
      if ok then (o.(bufferCount := 0, count := 1), true) else (o, false)
    else (c.(count := c.count + 1), true)
  }

  /** stop_event_pipe_release */
  function Release(c: Channel): Channel {
    var d := c.(count := c.count - 1);
    if d.count == 0 then Close(d) else d
  }

  // ---------- the whole state ----------

  /** A run between acquiring the pipe and releasing it; `fd` and `pipe` are what it saw
      under the lock. */
  datatype Flight = Flight(fd: int, pipe: nat, record: Record, written: bool)

  /** The lock is held across steps only by a reader that has part of a record. */
  datatype Lock = Free | Reading(t: nat, partial: seq<Byte>)

  /** The pipe now open, numbered: its contents, the records written to it and the records
      returned from it, and how many bytes failed reads have dropped. */
  datatype Pipe = Pipe(number: nat, bytes: seq<Byte>, sent: seq<Record>, got: seq<Record>, lost: nat)

  datatype State = State(
    c: Channel,
    pipe: Pipe,
    handlers: set<int>,          // epoll descriptors the read end is registered with
    flights: map<nat, Flight>,   // by thread
    lock: Lock,
    stray: bool)                 // something was written to a descriptor of no open pipe

  const CAPACITY: nat := 65536

  datatype Event =
    | Register(epfd: int, call: PipeCall, added: bool)
    | Deregister(epfd: int, removed: bool)
    | RunStops(t: nat, record: Record, call: PipeCall)
    | Write(t: nat, ok: bool)
    | RunEnds(t: nat)
    | ReadBegins(t: nat, n: nat)
    | ReadGoesOn(n: nat)
    | ReadFails

  predicate Init(s: State) {
    && s.c.fdRead == s.c.fdWrite == -1 && s.c.count == 0 && s.c.bufferCount == 0
    && s.pipe.bytes == [] && s.pipe.sent == [] && s.pipe.got == [] && s.pipe.lost == 0
    && s.handlers == {} && s.flights == map[] && s.lock == Free && !s.stray
  }

  predicate Enabled(s: State, e: Event) {
    match e
    case Register(_, call, _) => s.lock.Free? && ValidCall(call)
    case Deregister(_, _) => s.lock.Free?
    case RunStops(t, _, call) => s.lock.Free? && t !in s.flights && ValidCall(call)
    case Write(t, ok) =>
      // an atomic write waits until the whole record fits
      t in s.flights && !s.flights[t].written && (ok ==> |s.pipe.bytes| + SIZE <= CAPACITY)
    case RunEnds(t) => s.lock.Free? && t in s.flights && s.flights[t].written
    case ReadBegins(t, n) =>
      && s.lock.Free? && t !in s.flights
      && (s.c.fdRead != -1 && s.pipe.bytes != [] ==> 0 < n <= SIZE && n <= |s.pipe.bytes|)
    case ReadGoesOn(n) => s.lock.Reading? && 0 < n <= SIZE - |s.lock.partial| && n <= |s.pipe.bytes|
    case ReadFails => s.lock.Reading?
  }

  /** A pipe just opened is empty. */
  function Renumbered(p: Pipe): Pipe { Pipe(p.number + 1, [], [], [], 0) }

  function Next(s: State, e: Event): State
    requires Enabled(s, e)
  {
    match e
    case Register(epfd, call, added) =>
      // lines 341-364
      var (c, ok) := Acquire(s.c, call);
      if !ok then s.(c := c)
      else
        var pipe := if s.c.count == 0 then Renumbered(s.pipe) else s.pipe;
        if added && epfd !in s.handlers then s.(c := c, pipe := pipe, handlers := s.handlers + {epfd})
        else s.(c := Release(c), pipe := pipe)
    case Deregister(epfd, removed) =>
      // lines 446-458
      if removed && s.c.fdRead != -1 && epfd in s.handlers then
        s.(c := Release(s.c), handlers := s.handlers - {epfd})
      else s
    case RunStops(t, record, call) =>
      // lines 588-602
      if s.c.fdWrite == -1 then s.(c := s.c.(buffer := record, bufferCount := 1))
      else
        var (c, ok) := Acquire(s.c, call);
        var pipe := if ok && s.c.count == 0 then Renumbered(s.pipe) else s.pipe;
        s.(c := c, pipe := pipe, flights := s.flights[t := Flight(s.c.fdWrite, s.pipe.number, record, false)])
    case Write(t, ok) =>
      // line 604, without the lock
      var f := s.flights[t];
      var s' := s.(flights := s.flights[t := f.(written := true)]);
      if !ok then s'
      else if f.fd != s.c.fdWrite || f.pipe != s.pipe.number then s'.(stray := true)
      else s'.(pipe := s.pipe.(bytes := s.pipe.bytes + f.record, sent := s.pipe.sent + [f.record]))
    case RunEnds(t) =>
      // lines 609-611
      s.(c := Release(s.c), flights := s.flights - {t})
    case ReadBegins(t, n) =>
      // lines 138-166
      if s.c.fdRead == -1 then
        if s.c.bufferCount != 0 then s.(c := s.c.(bufferCount := s.c.bufferCount - 1)) else s
      else if s.pipe.bytes == [] then s
      else Take(s, t, [], n)
    case ReadGoesOn(n) => Take(s, s.lock.t, s.lock.partial, n)
    case ReadFails =>
      // lines 174 and 181: the part of a record read so far is gone
      s.(lock := Free, pipe := s.pipe.(lost := s.pipe.lost + |s.lock.partial|))
  }

  /** Moving n bytes from the pipe to the record under way. */
  function Take(s: State, t: nat, partial: seq<Byte>, n: nat): State
    requires 0 < n <= |s.pipe.bytes| && |partial| + n <= SIZE
  {
    var p := partial + s.pipe.bytes[..n];
    var pipe := s.pipe.(bytes := s.pipe.bytes[n..]);
    if |p| == SIZE then s.(lock := Free, pipe := pipe.(got := pipe.got + [p]))
    else s.(lock := Reading(t, p), pipe := pipe)
  }

  /** What a read that starts here with n bytes returns at once; nothing for EAGAIN and for
      a record that is not complete yet. */
  function Answer(s: State, n: nat): seq<Record> {
    if s.c.fdRead == -1 then (if s.c.bufferCount != 0 then [s.c.buffer] else [])
    else if n == SIZE <= |s.pipe.bytes| then [s.pipe.bytes[..SIZE]]
    else []
  }

  predicate Reaches(s: State, es: seq<Event>, s': State)
    decreases |es|
  {
    if es == [] then s' == s
    else Enabled(s, es[0]) && Reaches(Next(s, es[0]), es[1..], s')
  }

  // ---------- the invariant ----------

  function Flatten(rs: seq<Record>): (b: seq<Byte>)
    ensures |b| == SIZE * |rs|
  {
    if |rs| == 0 then [] else Flatten(rs[..|rs| - 1]) + rs[|rs| - 1]
  }

  function Partial(s: State): seq<Byte> {
    match s.lock
    case Free => []
    case Reading(_, p) => p
  }

  /** The pipe is open exactly while somebody counts on it, and the buffer is empty then. */
  ghost predicate CountInv(s: State) {
    && s.c.count == |s.handlers| + |s.flights|
    && (s.c.count > 0 <==> s.c.fdRead != -1) && (s.c.count > 0 <==> s.c.fdWrite != -1)
    && 0 <= s.c.bufferCount <= 1
    && (s.c.count > 0 ==> s.c.bufferCount == 0)
    && (s.lock.Reading? ==> s.c.count > 0 && s.lock.t !in s.flights && 0 < |s.lock.partial| < SIZE)
  }

  /** What a run saw under the lock stays true until it lets the pipe go. */
  ghost predicate FlightInv(s: State) {
    && (forall t :: t in s.flights ==> s.flights[t].fd == s.c.fdWrite && s.flights[t].pipe == s.pipe.number)
    && !s.stray
  }

  /** Every byte written has been returned, dropped or is still on its way. */
  ghost predicate StreamInv(s: State) {
    && SIZE * |s.pipe.sent| == SIZE * |s.pipe.got| + |Partial(s)| + |s.pipe.bytes| + s.pipe.lost
    && (s.pipe.lost == 0 ==> Flatten(s.pipe.sent) == Flatten(s.pipe.got) + Partial(s) + s.pipe.bytes)
  }

  ghost predicate Inv(s: State) { CountInv(s) && FlightInv(s) && StreamInv(s) }

  lemma InitInv(s: State)
    requires Init(s)
    ensures Inv(s)
  {}

  lemma MinusOne(m: map<nat, Flight>, t: nat)
    requires t in m
    ensures |m - {t}| == |m| - 1
  {
    assert (m - {t}).Keys == m.Keys - {t};
  }

  lemma PlusOne(m: map<nat, Flight>, t: nat, f: Flight)
    ensures |m[t := f]| == if t in m then |m| else |m| + 1
  {
    assert m[t := f].Keys == m.Keys + {t};
  }

  lemma NextCount(s: State, e: Event)
    requires CountInv(s) && Enabled(s, e)
    ensures CountInv(Next(s, e))
  {
    hide CountInv, Next, Enabled;
    match e
    case Register(_, _, _) => RegisterCount(s, e);
    case Deregister(_, _) => DeregisterCount(s, e);
    case RunStops(_, _, _) => RunStopsCount(s, e);
    case Write(_, _) => WriteCount(s, e);
    case RunEnds(_) => RunEndsCount(s, e);
    case ReadBegins(_, _) => ReadCount(s, e);
    case ReadGoesOn(_) => ReadCount(s, e);
    case ReadFails => ReadCount(s, e);
  }

  lemma RunStopsCount(s: State, e: Event)
    requires CountInv(s) && Enabled(s, e) && e.RunStops?
    ensures CountInv(Next(s, e))
  {
    PlusOne(s.flights, e.t, Flight(s.c.fdWrite, s.pipe.number, e.record, false));
  }

  lemma WriteCount(s: State, e: Event)
    requires CountInv(s) && Enabled(s, e) && e.Write?
    ensures CountInv(Next(s, e))
  {
    PlusOne(s.flights, e.t, s.flights[e.t].(written := true));
  }

  lemma RunEndsCount(s: State, e: Event)
    requires CountInv(s) && Enabled(s, e) && e.RunEnds?
    ensures CountInv(Next(s, e))
  {
    MinusOne(s.flights, e.t);
  }

  lemma ReadCount(s: State, e: Event)
    requires CountInv(s) && Enabled(s, e) && (e.ReadBegins? || e.ReadGoesOn? || e.ReadFails?)
    ensures CountInv(Next(s, e))
  {}

  lemma RegisterCount(s: State, e: Event)
    requires CountInv(s) && Enabled(s, e) && e.Register?
    ensures CountInv(Next(s, e))
  {}

  lemma DeregisterCount(s: State, e: Event)
    requires CountInv(s) && Enabled(s, e) && e.Deregister?
    ensures CountInv(Next(s, e))
  {}

  /** Nobody has a descriptor of a pipe that is closed. */
  lemma NobodyFlies(s: State)
    requires CountInv(s) && s.c.count == 0
    ensures s.flights == map[] && s.handlers == {}
  {}

  lemma NextFlight(s: State, e: Event)
    requires CountInv(s) && FlightInv(s) && Enabled(s, e)
    ensures FlightInv(Next(s, e))
  {
    hide CountInv, FlightInv, Next, Enabled;
    match e
    case Register(_, _, _) => RegisterFlight(s, e);
    case Deregister(_, _) => ReleaseFlight(s, e);
    case RunStops(_, _, _) => RunStopsFlight(s, e);
    case Write(_, _) => WriteFlight(s, e);
    case RunEnds(_) => ReleaseFlight(s, e);
    case ReadBegins(_, _) => ReadFlight(s, e);
    case ReadGoesOn(_) => ReadFlight(s, e);
    case ReadFails => ReadFlight(s, e);
  }

  lemma RegisterFlight(s: State, e: Event)
    requires CountInv(s) && FlightInv(s) && Enabled(s, e) && e.Register?
    ensures FlightInv(Next(s, e))
  {
    NextCount(s, e);
    if s.c.count == 0 { NobodyFlies(s); }
    if Next(s, e).c.count == 0 { NobodyFlies(Next(s, e)); }
  }

  lemma ReleaseFlight(s: State, e: Event)
    requires CountInv(s) && FlightInv(s) && Enabled(s, e) && (e.Deregister? || e.RunEnds?)
    ensures FlightInv(Next(s, e))
  {
    NextCount(s, e);
    if s.c.count == 0 { NobodyFlies(s); }
    if Next(s, e).c.count == 0 { NobodyFlies(Next(s, e)); }
  }

  lemma RunStopsFlight(s: State, e: Event)
    requires CountInv(s) && FlightInv(s) && Enabled(s, e) && e.RunStops?
    ensures FlightInv(Next(s, e))
  {}

  lemma WriteFlight(s: State, e: Event)
    requires CountInv(s) && FlightInv(s) && Enabled(s, e) && e.Write?
    ensures FlightInv(Next(s, e))
  {}

  lemma ReadFlight(s: State, e: Event)
    requires CountInv(s) && FlightInv(s) && Enabled(s, e) && (e.ReadBegins? || e.ReadGoesOn? || e.ReadFails?)
    ensures FlightInv(Next(s, e))
  {}

  lemma NextStream(s: State, e: Event)
    requires Inv(s) && Enabled(s, e)
    ensures StreamInv(Next(s, e))
  {
    hide CountInv, FlightInv, StreamInv, Next, Enabled, Flatten;
    match e
    case ReadBegins(t, n) => ReadStream(s, e);
    case ReadGoesOn(n) => ReadStream(s, e);
    case Write(t, ok) => WriteStream(s, e);
    case Register(_, _, _) => OtherStream(s, e);
    case Deregister(_, _) => OtherStream(s, e);
    case RunStops(_, _, _) => OtherStream(s, e);
    case RunEnds(_) => OtherStream(s, e);
    case ReadFails => OtherStream(s, e);
  }

  lemma ReadStream(s: State, e: Event)
    requires Inv(s) && Enabled(s, e) && (e.ReadBegins? || e.ReadGoesOn?)
    ensures StreamInv(Next(s, e))
  {
    hide Flatten, StreamInv, Take, FlightInv;
    if e.ReadGoesOn? {
      TakeStream(s, s.lock.t, s.lock.partial, e.n);
    } else if s.c.fdRead != -1 && s.pipe.bytes != [] {
      TakeStream(s, e.t, [], e.n);
    } else {
      SamePipeStream(s, Next(s, e));
    }
  }

  lemma SamePipeStream(s: State, s': State)
    requires StreamInv(s) && s'.pipe == s.pipe && s'.lock == s.lock
    ensures StreamInv(s')
  {}

  lemma WriteStream(s: State, e: Event)
    requires Inv(s) && Enabled(s, e) && e.Write?
    ensures StreamInv(Next(s, e))
  {
    hide Flatten, CountInv;
    var r := s.flights[e.t].record;
    FlattenMore(s.pipe.sent, r);
    Moved(Flatten(s.pipe.got) + Partial(s), s.pipe.bytes, r, |r|);
  }

  /** Steps that leave the stream alone, start a new one, or lose part of a record. */
  lemma OtherStream(s: State, e: Event)
    requires Inv(s) && Enabled(s, e) && (e.Register? || e.Deregister? || e.RunStops? || e.RunEnds? || e.ReadFails?)
    ensures StreamInv(Next(s, e))
  {
    hide FlightInv;
  }

  lemma TakeStream(s: State, t: nat, partial: seq<Byte>, n: nat)
    requires 0 < n <= |s.pipe.bytes| && |partial| + n <= SIZE
    requires StreamInv(s) && Partial(s) == partial
    ensures StreamInv(Take(s, t, partial, n))
  {
    hide Flatten;
    var p, f, rest := partial + s.pipe.bytes[..n], Flatten(s.pipe.got), s.pipe.bytes[n..];
    Moved(f, partial, s.pipe.bytes, n);
    if |p| == SIZE {
      FlattenMore(s.pipe.got, p);
      assert f + p + [] + rest == f + p + rest;
    }
  }

  /** Bytes change their place in the stream, not their order. */
  lemma Moved(f: seq<Byte>, partial: seq<Byte>, bytes: seq<Byte>, n: nat)
    requires n <= |bytes|
    ensures f + partial + bytes == f + (partial + bytes[..n]) + bytes[n..]
  {
    assert bytes == bytes[..n] + bytes[n..];
  }

  lemma FlattenMore(rs: seq<Record>, r: Record)
    ensures Flatten(rs + [r]) == Flatten(rs) + r
  {
    assert (rs + [r])[..|rs|] == rs;
  }

  lemma NextInv(s: State, e: Event)
    requires Inv(s) && Enabled(s, e)
    ensures Inv(Next(s, e))
  {
    NextCount(s, e);
    NextFlight(s, e);
    NextStream(s, e);
  }

  lemma {:induction false} RunInv(s: State, es: seq<Event>, s': State)
    requires Inv(s) && Reaches(s, es, s')
    ensures Inv(s')
    decreases |es|
  {
    hide Inv, Enabled, Next;
    if es != [] {
      NextInv(s, es[0]);
      RunInv(Next(s, es[0]), es[1..], s');
    }
  }

  // ---------- what holds in every run ----------

  /** Whenever the lock is free, and in fact always: the pipe is open exactly while the
      count is positive, the count is the number of registered handlers and of runs that
      have yet to let go, an open pipe leaves nothing in the buffer, and every run in
      flight still has the descriptor of the pipe it acquired. */
  lemma PipeInvariant(s: State, es: seq<Event>, s': State)
    requires Init(s) && Reaches(s, es, s')
    ensures s'.c.fdRead != -1 <==> s'.c.count > 0
    ensures s'.c.fdWrite != -1 <==> s'.c.count > 0
    ensures s'.c.count == |s'.handlers| + |s'.flights|
    ensures s'.c.fdRead != -1 ==> s'.c.bufferCount == 0
    ensures forall t :: t in s'.flights ==> s'.flights[t].fd == s'.c.fdWrite && s'.flights[t].pipe == s'.pipe.number
    ensures !s'.stray
  {
    InitInv(s);
    RunInv(s, es, s');
  }

  /** The acquire of a run never opens a pipe, whatever pipe() would do. */
  lemma RunNeverReopens(s: State, es: seq<Event>, s': State, t: nat, record: Record, call: PipeCall)
    requires Init(s) && Reaches(s, es, s') && Enabled(s', RunStops(t, record, call))
    ensures Next(s', RunStops(t, record, call)).pipe == s'.pipe
    ensures s'.c.fdWrite != -1 ==> Acquire(s'.c, call) == (s'.c.(count := s'.c.count + 1), true)
  {
    InitInv(s);
    RunInv(s, es, s');
  }

  // ---------- what the steps are for ----------

  /** A registration adds its handler and opens the pipe if it is not open yet; it fails
      exactly if the pipe cannot be opened, or epoll_ctl refuses or has the handler, and
      then leaves things as they were. */
  lemma Registers(s: State, epfd: int, call: PipeCall, added: bool)
    requires Inv(s) && s.lock.Free? && ValidCall(call)
    ensures Enabled(s, Register(epfd, call, added))
    ensures var s' := Next(s, Register(epfd, call, added));
      && s'.flights == s.flights && s'.lock == s.lock
      && if added && epfd !in s.handlers && (s.handlers != {} || s.flights != map[] || call.Opens?) then
           && s'.handlers == s.handlers + {epfd} && s'.c.count == s.c.count + 1
           && if s.c.fdRead != -1 then s'.pipe == s.pipe && s'.c.fdRead == s.c.fdRead && s'.c.fdWrite == s.c.fdWrite
              else call.Opens? && s'.c.fdRead == call.r && s'.c.fdWrite == call.w && s'.pipe.bytes == []
         else
           s'.handlers == s.handlers && s'.c.count == s.c.count
           && s'.c.fdRead == s.c.fdRead && s'.c.fdWrite == s.c.fdWrite
  {
    if s.c.count == 0 { NobodyFlies(s); }
  }

  /** A deregistration removes its handler and lets the pipe go: it is closed exactly if
      this was the last handler and no run is in flight. */
  lemma Deregisters(s: State, epfd: int, removed: bool)
    requires Inv(s) && s.lock.Free?
    ensures Enabled(s, Deregister(epfd, removed))
    ensures var s' := Next(s, Deregister(epfd, removed));
      if removed && epfd in s.handlers then
        && s'.handlers == s.handlers - {epfd} && s'.c.count == s.c.count - 1
        && s'.flights == s.flights && s'.lock == s.lock && s'.pipe == s.pipe
        && (s'.c.fdRead == -1 <==> s.handlers == {epfd} && s.flights == map[])
        && (s'.c.fdWrite == -1 <==> s.handlers == {epfd} && s.flights == map[])
        && (s'.c.fdRead != -1 ==> s'.c.fdRead == s.c.fdRead && s'.c.fdWrite == s.c.fdWrite)
      else s' == s
  {
    hide FlightInv, StreamInv;
    var s' := Next(s, Deregister(epfd, removed));
    if epfd in s.handlers { assert |s.handlers| > 0; }
    NextCount(s, Deregister(epfd, removed));
    if removed && epfd in s.handlers {
      assert s.handlers == s'.handlers + {epfd};
      if s'.c.count == 0 { NobodyFlies(s'); }
    }
  }

  /** Registering a handler and deregistering it again leaves what there was: handlers,
      count, and the pipe as open or closed as before; and the very state if it was open. */
  lemma RegisterDeregister(s: State, epfd: int, call: PipeCall)
    requires Inv(s) && s.lock.Free? && ValidCall(call) && epfd !in s.handlers
    requires s.handlers != {} || s.flights != map[] || call.Opens?
    ensures Enabled(s, Register(epfd, call, true))
    ensures Enabled(Next(s, Register(epfd, call, true)), Deregister(epfd, true))
    ensures var s' := Next(Next(s, Register(epfd, call, true)), Deregister(epfd, true));
      && s'.handlers == s.handlers && s'.flights == s.flights && s'.c.count == s.c.count
      && s'.c.fdRead == s.c.fdRead && s'.c.fdWrite == s.c.fdWrite
      && (s.c.fdRead != -1 ==> s'.pipe == s.pipe)
  {
    hide Enabled, Next, Inv;
    Registers(s, epfd, call, true);
    var m := Next(s, Register(epfd, call, true));
    NextInv(s, Register(epfd, call, true));
    Deregisters(m, epfd, true);
    OneMoreHandler(s.handlers, epfd);
    ClosedWhenUnused(s);
  }

  lemma OneMoreHandler(handlers: set<int>, epfd: int)
    requires epfd !in handlers
    ensures handlers + {epfd} - {epfd} == handlers
    ensures handlers + {epfd} == {epfd} <==> handlers == {}
  {
    if h :| h in handlers { assert h in handlers + {epfd} && h != epfd; }
  }

  lemma ClosedWhenUnused(s: State)
    requires Inv(s)
    ensures s.c.fdRead == -1 <==> s.handlers == {} && s.flights == map[]
    ensures s.c.fdWrite == -1 <==> s.c.fdRead == -1
  {
    if s.c.count == 0 { NobodyFlies(s); }
  }

  /** A run on its own, from its stop to its end: with a handler its record goes to the end
      of the stream, without one it is what the buffer holds, and nothing else changes. */
  lemma WholeRun(s: State, t: nat, record: Record, call: PipeCall)
    requires Inv(s) && s.lock.Free? && t !in s.flights && ValidCall(call)
    ensures Enabled(s, RunStops(t, record, call))
    ensures var s1 := Next(s, RunStops(t, record, call));
      if s.handlers == {} && s.flights == map[] then s1 == s.(c := s.c.(buffer := record, bufferCount := 1))
      else
        && t in s1.flights && s1.flights[t].record == record
        && (|s.pipe.bytes| + SIZE <= CAPACITY ==>
          && Enabled(s1, Write(t, true)) && Enabled(Next(s1, Write(t, true)), RunEnds(t))
          && Next(Next(s1, Write(t, true)), RunEnds(t)) ==
             s.(pipe := s.pipe.(bytes := s.pipe.bytes + record, sent := s.pipe.sent + [record])))
  {
    ClosedWhenUnused(s);
    hide StreamInv;
    if s.c.count > 0 {
      var s1 := Next(s, RunStops(t, record, call));
      assert s1.c == s.c.(count := s.c.count + 1);
      if |s.pipe.bytes| + SIZE <= CAPACITY {
        var s2 := Next(s1, Write(t, true));
        assert s2.flights - {t} == s.flights;
        assert Release(s2.c) == s.c;
      }
    }
  }

  lemma {:induction false} PrefixOfRecords(a: seq<Record>, b: seq<Record>, rest: seq<Byte>)
    requires Flatten(b) == Flatten(a) + rest
    ensures a <= b
    decreases |b|
  {
    assert |a| <= |b|;
    if |b| == 0 {
    } else if |a| == |b| {
      assert rest == [];
      var a', b' := a[..|a| - 1], b[..|b| - 1];
      LastRecords(a, b);
      PrefixOfRecords(a', b', []);
      assert a == a' + [a[|a| - 1]] && b == b' + [b[|b| - 1]];
    } else {
      hide Flatten;
      var b' := b[..|b| - 1];
      var cut := |rest| - SIZE;
      FlattenLast(b);
      assert (Flatten(a) + rest)[..|Flatten(a)| + cut] == Flatten(a) + rest[..cut];
      PrefixOfRecords(a, b', rest[..cut]);
    }
  }

  lemma FlattenLast(rs: seq<Record>)
    requires |rs| > 0
    ensures var n := SIZE * (|rs| - 1);
      Flatten(rs)[..n] == Flatten(rs[..|rs| - 1]) && Flatten(rs)[n..] == rs[|rs| - 1]
  {
    var init, last := Flatten(rs[..|rs| - 1]), rs[|rs| - 1];
    assert (init + last)[..|init|] == init && (init + last)[|init|..] == last;
  }

  lemma LastRecords(a: seq<Record>, b: seq<Record>)
    requires |a| == |b| > 0 && Flatten(a) == Flatten(b)
    ensures a[|a| - 1] == b[|b| - 1]
    ensures Flatten(a[..|a| - 1]) == Flatten(b[..|b| - 1]) + []
  {
    hide Flatten;
    FlattenLast(a);
    FlattenLast(b);
  }

  /** The state after the first i events. */
  function StateAt(s: State, es: seq<Event>, i: nat): State
    requires i <= |es| && Possible(s, es)
    decreases i
  {
    if i == 0 then s else StateAt(Next(s, es[0]), es[1..], i - 1)
  }

  predicate Possible(s: State, es: seq<Event>)
    decreases |es|
  {
    es == [] || (Enabled(s, es[0]) && Possible(Next(s, es[0]), es[1..]))
  }

  /** Event i is a read that fails with part of a record. */
  predicate FailsAt(s: State, es: seq<Event>, i: nat)
    requires Possible(s, es)
  {
    i < |es| && es[i].ReadFails?
  }

  /** Some read failed with part of a record of the pipe that was open in the end. */
  ghost predicate ReadFailed(s: State, es: seq<Event>)
    requires Possible(s, es)
  {
    exists i: nat :: FailsAt(s, es, i) && StateAt(s, es, i).pipe.number == StateAt(s, es, |es|).pipe.number
  }

  lemma {:induction false} ReachesStateAt(s: State, es: seq<Event>, s': State)
    requires Reaches(s, es, s')
    ensures Possible(s, es) && StateAt(s, es, |es|) == s'
    decreases |es|
  {
    hide Enabled, Next;
    if es != [] { ReachesStateAt(Next(s, es[0]), es[1..], s'); }
  }

  /** What one step does to the pipe and to the bytes lost from it. */
  lemma NextLost(s: State, e: Event)
    requires Inv(s) && Enabled(s, e)
    ensures var s' := Next(s, e);
      && s.pipe.number <= s'.pipe.number
      && (s.pipe.number < s'.pipe.number ==> s'.pipe.lost == 0 && !e.ReadFails?)
      && (s.pipe.number == s'.pipe.number ==> (s'.pipe.lost == 0 <==> s.pipe.lost == 0 && !e.ReadFails?))
  {
    hide FlightInv, StreamInv;
  }

  lemma {:induction false} PipesGrow(s: State, es: seq<Event>, s': State)
    requires Inv(s) && Reaches(s, es, s')
    ensures s.pipe.number <= s'.pipe.number
    decreases |es|
  {
    hide Inv, Enabled, Next;
    if es != [] {
      NextInv(s, es[0]);
      NextLost(s, es[0]);
      PipesGrow(Next(s, es[0]), es[1..], s');
    }
  }

  /** The first event and the others. */
  lemma ReadFailedSplit(s: State, es: seq<Event>, s': State)
    requires es != [] && Reaches(s, es, s') && Possible(s, es)
    ensures ReadFailed(s, es) <==>
      (es[0].ReadFails? && s.pipe.number == s'.pipe.number) || ReadFailed(Next(s, es[0]), es[1..])
  {
    hide Enabled, Next;
    var m, rest := Next(s, es[0]), es[1..];
    ReachesStateAt(s, es, s');
    ReachesStateAt(m, rest, s');
    if ReadFailed(s, es) {
      var i: nat :| FailsAt(s, es, i) && StateAt(s, es, i).pipe.number == s'.pipe.number;
      if i > 0 { assert FailsAt(m, rest, i - 1) && StateAt(m, rest, i - 1) == StateAt(s, es, i); }
    }
    if ReadFailed(m, rest) {
      var i: nat :| FailsAt(m, rest, i) && StateAt(m, rest, i).pipe.number == s'.pipe.number;
      assert FailsAt(s, es, i + 1) && StateAt(s, es, i + 1) == StateAt(m, rest, i);
    }
    if es[0].ReadFails? && s.pipe.number == s'.pipe.number {
      assert FailsAt(s, es, 0) && StateAt(s, es, 0) == s;
    }
  }

  lemma {:induction false} LostIff(s: State, es: seq<Event>, s': State)
    requires Inv(s) && Reaches(s, es, s') && Possible(s, es)
    ensures s'.pipe.lost == 0 <==>
      !ReadFailed(s, es) && (s.pipe.number == s'.pipe.number ==> s.pipe.lost == 0)
    decreases |es|
  {
    hide Inv, Enabled, Next, StateAt, ReadFailed;
    if es == [] {
      NothingFailed(s);
    } else {
      var m := Next(s, es[0]);
      NextInv(s, es[0]);
      NextLost(s, es[0]);
      PipesGrow(m, es[1..], s');
      ReadFailedSplit(s, es, s');
      LostIff(m, es[1..], s');
    }
  }

  lemma NothingFailed(s: State)
    ensures Possible(s, []) && !ReadFailed(s, [])
  {}

  lemma InOrder(s: State)
    requires StreamInv(s) && s.pipe.lost == 0
    ensures s.pipe.got <= s.pipe.sent
    ensures s.lock.Free? && s.pipe.bytes == [] ==> s.pipe.got == s.pipe.sent
  {
    hide Flatten;
    var rest := Partial(s) + s.pipe.bytes;
    assert Flatten(s.pipe.got) + Partial(s) + s.pipe.bytes == Flatten(s.pipe.got) + rest;
    PrefixOfRecords(s.pipe.got, s.pipe.sent, rest);
  }

  /** Delivery: the records returned are the first records written, whole and in order,
      as long as no read has failed in the middle of a record of this pipe; and all of them
      once the pipe is drained. */
  lemma Delivery(s: State, es: seq<Event>, s': State)
    requires Init(s) && Reaches(s, es, s')
    ensures Possible(s, es)
    ensures !ReadFailed(s, es) ==>
      && s'.pipe.got <= s'.pipe.sent
      && (s'.lock.Free? && s'.pipe.bytes == [] ==> s'.pipe.got == s'.pipe.sent)
  {
    hide ReadFailed;
    InitInv(s);
    RunInv(s, es, s');
    ReachesStateAt(s, es, s');
    LostIff(s, es, s');
    if !ReadFailed(s, es) { InOrder(s'); }
  }

  /** The exact condition: the bytes returned and pending are the bytes written if and only
      if no read has failed in the middle of a record while this pipe was open. */
  lemma StreamIntactIff(s: State, es: seq<Event>, s': State)
    requires Init(s) && Reaches(s, es, s')
    ensures Possible(s, es)
    ensures !ReadFailed(s, es) <==>
      Flatten(s'.pipe.sent) == Flatten(s'.pipe.got) + Partial(s') + s'.pipe.bytes
  {
    hide ReadFailed;
    InitInv(s);
    RunInv(s, es, s');
    ReachesStateAt(s, es, s');
    LostIff(s, es, s');
  }

  /** A run of the system during which some handler stays registered. */
  predicate StaysRegistered(s: State, es: seq<Event>)
    decreases |es|
  {
    s.handlers != {} && (es != [] ==> Enabled(s, es[0]) && StaysRegistered(Next(s, es[0]), es[1..]))
  }

  /** As long as a handler stays registered the pipe stays the same one: what was written
      and what was returned only grow, whatever else comes and goes. */
  lemma {:induction false} SamePipe(s: State, es: seq<Event>, s': State)
    requires Inv(s) && Reaches(s, es, s') && StaysRegistered(s, es)
    ensures s'.pipe.number == s.pipe.number
    ensures s.pipe.sent <= s'.pipe.sent && s.pipe.got <= s'.pipe.got
    decreases |es|
  {
    if es != [] {
      NextInv(s, es[0]);
      NextPipe(s, es[0]);
      SamePipe(Next(s, es[0]), es[1..], s');
    }
  }

  lemma NextPipe(s: State, e: Event)
    requires Inv(s) && Enabled(s, e) && s.handlers != {}
    ensures Next(s, e).pipe.number == s.pipe.number
    ensures s.pipe.sent <= Next(s, e).pipe.sent && s.pipe.got <= Next(s, e).pipe.got
  {
    assert |s.handlers| > 0;
  }

  /** A reader that holds the lock with part of a record is not a writer; unless a read has
      failed before, it does not wait for one either: the rest of the record is in the
      pipe. */
  lemma ReaderFinishes(s: State, es: seq<Event>, s': State)
    requires Init(s) && Reaches(s, es, s') && s'.lock.Reading?
    ensures s'.lock.t !in s'.flights && 0 < |s'.lock.partial| < SIZE
    ensures Possible(s, es)
    ensures !ReadFailed(s, es) ==>
      && SIZE - |s'.lock.partial| <= |s'.pipe.bytes|
      && Enabled(s', ReadGoesOn(SIZE - |s'.lock.partial|)) && Next(s', ReadGoesOn(SIZE - |s'.lock.partial|)).lock.Free?
  {
    hide ReadFailed;
    InitInv(s);
    RunInv(s, es, s');
    ReachesStateAt(s, es, s');
    LostIff(s, es, s');
    if !ReadFailed(s, es) {
      WholeRecordsLeft(|s'.pipe.sent|, |s'.pipe.got|, |s'.lock.partial|, |s'.pipe.bytes|);
    }
  }

  predicate MustWrite(s: State, t: nat) { t in s.flights && !s.flights[t].written }

  /** Nothing but an error of the reader itself can happen any more. */
  ghost predicate Blocked(s: State) { forall e :: Enabled(s, e) ==> e.ReadFails? }

  /** Exactly when everything waits for a reader that waits for a byte. */
  lemma BlockedIff(s: State)
    requires Inv(s)
    ensures Blocked(s) <==> s.lock.Reading? && s.pipe.bytes == [] && forall t: nat :: !MustWrite(s, t)
  {
    if Blocked(s) {
      assert !Enabled(s, Deregister(0, false));
      assert !Enabled(s, ReadGoesOn(1));
      forall t: nat ensures !MustWrite(s, t) { assert !Enabled(s, Write(t, false)); }
    }
    if s.lock.Reading? && s.pipe.bytes == [] && forall t: nat :: !MustWrite(s, t) {
      forall e | Enabled(s, e) ensures e.ReadFails? {
        assert e.Write? ==> MustWrite(s, e.t);
      }
    }
  }

  /** And so it happens: a read that fails after one byte, and the next reader waits for the
      last byte of a record with the lock held, which no run can get past to write. */
  lemma ReaderBlocks(s: State) returns (es: seq<Event>, s': State)
    requires Init(s)
    ensures Reaches(s, es, s') && Blocked(s')
  {
    var before, s4 := OneWritten(s);
    var e, f, g := ReadBegins(3, 1), ReadFails, ReadBegins(3, SIZE - 1);
    var s5 := Next(s4, e);
    var s6 := Next(s5, f);
    s' := Next(s6, g);
    Chain(s6, g, [], s');
    Chain(s5, f, [g], s');
    Chain(s4, e, [f] + [g], s');
    Join(s, before, s4, [e] + ([f] + [g]), s');
    es := before + ([e] + ([f] + [g]));
  }

  lemma OneWritten(s: State) returns (es: seq<Event>, s': State)
    requires Init(s)
    ensures Reaches(s, es, s') && |s'.pipe.bytes| == SIZE && s'.lock.Free? && s'.c.fdRead != -1 && s'.flights == map[]
  {
    var a, b, c, d := Register(1, Opens(3, 4), true), RunStops(1, Fill(1), PipeFails), Write(1, true), RunEnds(1);
    var s1 := Next(s, a);
    var s2 := Next(s1, b);
    var s3 := Next(s2, c);
    s' := Next(s3, d);
    Chain(s3, d, [], s');
    Chain(s2, c, [d], s');
    Chain(s1, b, [c] + [d], s');
    es := [a] + ([b] + ([c] + [d]));
    Chain(s, a, [b] + ([c] + [d]), s');
  }

  lemma WholeRecordsLeft(sent: nat, got: nat, partial: nat, bytes: nat)
    requires SIZE * sent == SIZE * got + partial + bytes && 0 < partial < SIZE
    ensures SIZE - partial <= bytes
  {
    assert SIZE * (sent - got) == partial + bytes;
  }

  /** Without a handler the last record is there to be read, once. */
  lemma LegacyBuffer(s: State, t: nat, u: nat, n: nat, record: Record, call: PipeCall)
    requires Inv(s) && s.c.count == 0 && s.lock.Free? && ValidCall(call)
    ensures Enabled(s, RunStops(t, record, call))
    ensures var s1 := Next(s, RunStops(t, record, call));
      && Enabled(s1, ReadBegins(u, n)) && Answer(s1, n) == [record]
      && Answer(Next(s1, ReadBegins(u, n)), n) == []
  {
    NobodyFlies(s);
  }

  // ---------- a read that fails in the middle ----------

  function Fill(b: Byte): Record { seq(SIZE, i => b) }

  /** Two runs write, a read gets one byte and fails, and the next read returns a record
      that nobody wrote. */
  lemma TornRecord(s: State) returns (es: seq<Event>, s': State)
    requires Init(s)
    ensures Reaches(s, es, s') && Possible(s, es) && ReadFailed(s, es)
    ensures |s'.pipe.got| == 1 && s'.pipe.got[0] !in s'.pipe.sent
  {
    hide *;
    es, s' := TornRun(s);
    InitInv(s);
    ReachesStateAt(s, es, s');
    NothingLostYet(s);
    LostIff(s, es, s');
  }

  lemma NothingLostYet(s: State)
    requires Init(s)
    ensures s.pipe.lost == 0
  {}

  lemma TornRun(s: State) returns (es: seq<Event>, s': State)
    requires Init(s)
    ensures Reaches(s, es, s') && s'.pipe.lost == 1
    ensures |s'.pipe.got| == 1 && s'.pipe.got[0] !in s'.pipe.sent
  {
    var before, s5 := TwoWritten(s);
    var s6 := Next(s5, ReadBegins(3, 1));
    var s7 := Next(s6, ReadFails);
    assert s7.pipe.bytes == (Fill(1) + Fill(2))[1..];
    s' := Next(s7, ReadBegins(3, SIZE));
    var r := s'.pipe.got[0];
    assert r[0] == 1 && r[SIZE - 1] == 2;
    assert Fill(1)[SIZE - 1] == 1 && Fill(2)[0] == 2;
    Chain(s7, ReadBegins(3, SIZE), [], s');
    Chain(s6, ReadFails, [ReadBegins(3, SIZE)], s');
    Chain(s5, ReadBegins(3, 1), [ReadFails] + [ReadBegins(3, SIZE)], s');
    var after := [ReadBegins(3, 1)] + ([ReadFails] + [ReadBegins(3, SIZE)]);
    Join(s, before, s5, after, s');
    es := before + after;
  }

  lemma TwoWritten(s: State) returns (es: seq<Event>, s': State)
    requires Init(s)
    ensures Reaches(s, es, s') && s'.pipe.bytes == Fill(1) + Fill(2) && s'.pipe.sent == [Fill(1), Fill(2)]
    ensures s'.pipe.got == [] && s'.pipe.lost == 0 && s'.lock.Free? && s'.c.fdRead != -1 && s'.flights.Keys == {1, 2}
  {
    var a, b := Register(1, Opens(3, 4), true), RunStops(1, Fill(1), PipeFails);
    var c, d, e := Write(1, true), RunStops(2, Fill(2), PipeFails), Write(2, true);
    var s1 := Next(s, a);
    var s2 := Next(s1, b);
    var s3 := Next(s2, c);
    var s4 := Next(s3, d);
    s' := Next(s4, e);
    Chain(s4, e, [], s');
    Chain(s3, d, [e], s');
    Chain(s2, c, [d] + [e], s');
    Chain(s1, b, [c] + ([d] + [e]), s');
    es := [a] + ([b] + ([c] + ([d] + [e])));
    Chain(s, a, [b] + ([c] + ([d] + [e])), s');
  }

  lemma {:induction false} Join(s: State, a: seq<Event>, m: State, b: seq<Event>, s': State)
    requires Reaches(s, a, m) && Reaches(m, b, s')
    ensures Reaches(s, a + b, s')
    decreases |a|
  {
    hide Enabled, Next;
    if a == [] {
      assert a + b == b;
    } else {
      assert (a + b)[1..] == a[1..] + b;
      Join(Next(s, a[0]), a[1..], m, b, s');
    }
  }

  lemma Chain(s: State, e: Event, es: seq<Event>, s': State)
    requires Enabled(s, e) && Reaches(Next(s, e), es, s')
    ensures Reaches(s, [e] + es, s')
  {
    assert ([e] + es)[1..] == es;
  }
}
