/** Running a context: `_base_spe_context_run` of spebase/run.c.

    The function starts the SPE, looks at why the kernel came back and starts it again
    after a library call that succeeded, after an isolated program was loaded and, in
    isolated mode, after the program's exit.  The kernel is a script: the sequence of
    results `spu_run` will give, with what has been stored in local store by then.  A library
    handler is part of the script too: it stores in local store, may itself run contexts on
    the same thread, and returns a code.  A script that is used up stands for a call the
    kernel never returns from. */
module RunLoop {
  import opened Bytes
  import opened Common
  import Registers

  // ---------- flags and constants of libspe2-types.h and spebase.h ----------

  datatype Flags = Flags(isolate: bool, emulate: bool, events: bool)

  const STOPPED_BY_STOP := 0x02
  const HALT := 0x04
  const WAITING_ON_CHANNEL := 0x08
  const INVALID_INSTR := 0x20
  const INVALID_CHANNEL := 0x40
  const ISOLATED_STATUS := 0x80

  /** A single bit of a status word is set. */
  predicate Has(rc: Word, bit: nat)
    requires bit > 0
  {
    rc / bit % 2 == 1
  }

  const EPERM_CODE := 1
  const DEFAULT_ENTRY: Word := 0xffff_ffff

  datatype Reason =
    | Exit | StopAndSignal | RuntimeError | RuntimeException | RuntimeFatal | CallbackError | IsolationError

  /** The two fields of spe_stop_info_t that say why the SPE stopped. */
  datatype Payload = Payload(reason: Reason, result: int)
  datatype StopInfo = StopInfo(payload: Payload, spuStatus: int)

  datatype Errno = Untouched | EFAULT | EIO | EPERM

  // ---------- the environment ----------

  datatype KernelResult = KernelResult(rc: Word, npc: Word, status: Word, errno: int)
  datatype Patch = Patch(at: nat, bytes: seq<Byte>)
  type Store = p: Patch | p.at + |p.bytes| <= LS_SIZE witness Patch(0, [])

  /** What the SPE, or another processor, stores in local store while the SPE runs; the
      result; and what the library handler does if the result is a call of it. */
  datatype Turn = Turn(stores: seq<Store>, kernel: KernelResult, callback: Callback)

  /** A handler stores in the local store of its context, the return code for one, and runs
      contexts, in any order. */
  datatype Callback = Callback(rc: int, acts: seq<Act>)
  datatype Act = Stores(store: Store) | Runs(call: RunCall)
  datatype RunCall = RunCall(spe: SpeContext, entry: Word, noCallbacks: bool, args: Registers.Args,
                             info: StopInfo, script: seq<Turn>)

  /** A frame of the list the debugger follows. */
  class ContextInfo {
    var speId: int
    var npc: Word
    var status: Word
    var prev: ContextInfo?

    constructor () {}
  }

  /** The thread-local variable `__spe_current_active_context`. */
  class Thread {
    var active: ContextInfo?
  }

  class SpeContext {
    const flags: Flags
    const fd: int
    const entry: Word
    const address: Addr64
    const mapped: Addr64
    const controlMapped: bool   // cntl_mmap_base != MAP_FAILED
    const mem: array<Byte>
    var emulatedEntry: Word
    var exitRequested: bool     // 0x2 was written to SPU_RunCntl

    constructor (flags: Flags, fd: int, entry: Word, address: Addr64, mapped: Addr64,
                 controlMapped: bool, mem: array<Byte>)
      ensures this.flags == flags && this.fd == fd && this.entry == entry && this.address == address
      ensures this.mapped == mapped && this.controlMapped == controlMapped && this.mem == mem
      ensures emulatedEntry == 0 && !exitRequested
    {
      this.flags, this.fd, this.entry, this.address := flags, fd, entry, address;
      this.mapped, this.controlMapped, this.mem := mapped, controlMapped, mem;
      emulatedEntry, exitRequested := 0, false;
    }
  }

  // ---------- what a result of the kernel means ----------

  /** The 14-bit code of a stop instruction; its upper byte names the group. */
  function StopCode(rc: Word): (r: nat)
    ensures r < 0x4000
  {
    rc / 0x1_0000 % 0x4000
  }

  /** The SPE stopped at a stop instruction, and nothing more serious is to be reported. */
  predicate CleanStop(f: Flags, k: KernelResult) {
    && k.rc != 0xffff_ffff
    && !Has(k.rc, INVALID_INSTR)
    && !(f.events && k.status != 0)
    && Has(k.rc, STOPPED_BY_STOP)
  }

  predicate IsLibraryCall(f: Flags, noCallbacks: bool, k: KernelResult) {
    CleanStop(f, k) && StopCode(k.rc) / 0x100 == 0x21 && !noCallbacks
  }

  predicate IsExit(f: Flags, k: KernelResult) {
    CleanStop(f, k) && StopCode(k.rc) / 0x100 == 0x20
  }

  predicate IsLoaded(f: Flags, k: KernelResult) {
    CleanStop(f, k) && StopCode(k.rc) == 0x2206
  }

  /** The three reasons to start the SPE again. */
  predicate Restarts(f: Flags, controlMapped: bool, noCallbacks: bool, t: Turn) {
    || (IsLibraryCall(f, noCallbacks, t.kernel) && t.callback.rc == 0)
    || (IsExit(f, t.kernel) && f.isolate && controlMapped)
    || IsLoaded(f, t.kernel)
  }

  /** The address it is started at again: past the two words of a library call. */
  function ResumeAt(f: Flags, noCallbacks: bool, t: Turn): Word {
    if IsLibraryCall(f, noCallbacks, t.kernel) then (t.kernel.npc + 4) % 0x1_0000_0000 else t.kernel.npc
  }

  /** The end of isolated mode: the one stop that reports nothing. */
  predicate LeavesIsolation(f: Flags, noCallbacks: bool, k: KernelResult) {
    && CleanStop(f, k) && !IsLibraryCall(f, noCallbacks, k) && !IsExit(f, k)
    && StopCode(k.rc) / 0x10 != 0x220
    && f.isolate && !Has(k.rc, ISOLATED_STATUS)
  }

  /** What a turn records in the caller's stop info, if anything. */
  function Recorded(f: Flags, noCallbacks: bool, t: Turn): Option<Payload> {
    var k := t.kernel;
    if k.rc == 0xffff_ffff then Some(Payload(RuntimeFatal, k.errno))
    else if Has(k.rc, INVALID_INSTR) then Some(Payload(RuntimeError, 0x20))
    else if f.events && k.status != 0 then Some(Payload(RuntimeException, k.status))
    else if Has(k.rc, STOPPED_BY_STOP) then
      if IsLibraryCall(f, noCallbacks, k) then
        if t.callback.rc == 0 then None else Some(Payload(CallbackError, t.callback.rc))
      else if IsExit(f, k) then Some(Payload(Exit, StopCode(k.rc) % 0x100))
      else if IsLoaded(f, k) || LeavesIsolation(f, noCallbacks, k) then None
      else if StopCode(k.rc) / 0x10 == 0x220 then Some(Payload(IsolationError, StopCode(k.rc) % 0x10))
      else Some(Payload(StopAndSignal, StopCode(k.rc)))
    else if Has(k.rc, HALT) then Some(Payload(RuntimeError, 0x04))
    else if Has(k.rc, WAITING_ON_CHANNEL) then Some(Payload(RuntimeException, k.status))
    else if Has(k.rc, INVALID_CHANNEL) then Some(Payload(RuntimeError, 0x40))
    else Some(Payload(RuntimeFatal, -1))
  }

  function Signed32(rc: Word): int {
    if rc < 0x8000_0000 then rc else rc - 0x1_0000_0000
  }

  /** The status word handed to the caller: the kernel's, or -1 for an exception and for
      a result that makes no sense. */
  function StatusOf(f: Flags, t: Turn): int {
    var k := t.kernel;
    if k.rc == 0xffff_ffff || Has(k.rc, INVALID_INSTR) then Signed32(k.rc)
    else if f.events && k.status != 0 then -1
    else if Has(k.rc, STOPPED_BY_STOP) || Has(k.rc, HALT) then Signed32(k.rc)
    else if Has(k.rc, WAITING_ON_CHANNEL) then -1
    else if Has(k.rc, INVALID_CHANNEL) then Signed32(k.rc)
    else -1
  }

  /** 0 for an exit and for the end of isolated mode, the code for a signal of the
      program, -1 for everything else. */
  function ReturnOf(f: Flags, noCallbacks: bool, t: Turn): int {
    if LeavesIsolation(f, noCallbacks, t.kernel) then 0
    else if IsExit(f, t.kernel) then (if f.isolate then -1 else 0)
    else
      var p := Recorded(f, noCallbacks, t);
      if p.Some? && p.value.reason == StopAndSignal then p.value.result else -1
  }

  function ErrnoOf(f: Flags, noCallbacks: bool, t: Turn): Errno {
    var p := Recorded(f, noCallbacks, t);
    if p.None? || p.value.reason in {Exit, StopAndSignal} then Untouched
    else if t.kernel.rc == 0xffff_ffff then (if f.isolate && t.kernel.errno == EPERM_CODE then EPERM else EFAULT)
    else if p.value.reason == RuntimeException then EIO
    else EFAULT
  }

  // ---------- what a whole run means ----------

  /** The context and the run flag that decide how a result is taken. */
  datatype Setting = Setting(f: Flags, controlMapped: bool, noCallbacks: bool)

  predicate Goes(c: Setting, t: Turn) { Restarts(c.f, c.controlMapped, c.noCallbacks, t) }

  /** k is the first result that does not start the SPE again. */
  predicate FirstStop(c: Setting, script: seq<Turn>, k: nat) {
    k < |script| && !Goes(c, script[k]) && forall i :: 0 <= i < k ==> Goes(c, script[i])
  }

  /** The last thing recorded in the course of some turns; what was there before if none
      records anything. */
  function LastRecorded(c: Setting, turns: seq<Turn>, before: Payload): Payload {
    if |turns| == 0 then before
    else
      var r := Recorded(c.f, c.noCallbacks, turns[|turns| - 1]);
      if r.Some? then r.value else LastRecorded(c, turns[..|turns| - 1], before)
  }

  /** The addresses at which the kernel is asked to start the SPE. */
  function StartedAt(c: Setting, first: Word, turns: seq<Turn>): (r: seq<Word>)
    ensures |r| == |turns|
  {
    seq(|turns|, i requires 0 <= i < |turns| =>
      if i == 0 then first else ResumeAt(c.f, c.noCallbacks, turns[i - 1]))
  }

  datatype Outcome = Outcome(retval: int, info: StopInfo, entry: Word, errno: Errno)

  /** The result of the run that stops at turn k. */
  function OutcomeAt(c: Setting, script: seq<Turn>, k: nat, before: Payload): Outcome
    requires k < |script|
  {
    var t := script[k];
    Outcome(ReturnOf(c.f, c.noCallbacks, t),
            StopInfo(LastRecorded(c, script[..k + 1], before), StatusOf(c.f, t)),
            if c.f.emulate then 0 else t.kernel.npc,
            ErrnoOf(c.f, c.noCallbacks, t))
  }

  function SettingOf(r: RunCall): Setting { Setting(r.spe.flags, r.spe.controlMapped, r.noCallbacks) }

  /** The handler runs when the result is a library call; every run it makes returns. */
  predicate HandlerReturns(c: Setting, t: Turn)
    decreases t, 0
  {
    IsLibraryCall(c.f, c.noCallbacks, t.kernel) ==>
      forall j :: 0 <= j < |t.callback.acts| && t.callback.acts[j].Runs? ==>
        Returns(SettingOf(t.callback.acts[j].call), t.callback.acts[j].call.script)
  }

  /** The script leads to a stop, and so do the scripts of the handlers on the way. */
  predicate Returns(c: Setting, script: seq<Turn>)
    decreases script, 1
  {
    |script| > 0 && HandlerReturns(c, script[0]) && (Goes(c, script[0]) ==> Returns(c, script[1..]))
  }

  /** The contexts a script runs are among `spes`. */
  predicate Within(script: seq<Turn>, spes: set<SpeContext>)
    decreases script
  {
    forall i :: 0 <= i < |script| ==> TurnWithin(script[i], spes)
  }

  predicate TurnWithin(t: Turn, spes: set<SpeContext>)
    decreases t
  {
    ActsWithin(t.callback.acts, spes)
  }

  predicate ActsWithin(acts: seq<Act>, spes: set<SpeContext>)
    decreases acts
  {
    forall j :: 0 <= j < |acts| && acts[j].Runs? ==>
      assert acts[j] decreases to acts[j].call;
      CallWithin(acts[j].call, spes)
  }

  predicate CallWithin(r: RunCall, spes: set<SpeContext>)
    decreases r
  {
    r.spe in spes && Within(r.script, spes)
  }

  // ---------- the code ----------

  /** Every context has a local store of its own. */
  ghost predicate Mapped(spes: set<SpeContext>) {
    && (forall s :: s in spes ==> s.mem.Length == LS_SIZE)
    && (forall s, r :: s in spes && r in spes && s != r ==> s.mem != r.mem)
  }

  /** The arguments go in only when the program starts from its own entry point. */
  predicate PassesArguments(spe: SpeContext, entry: Word) {
    !spe.flags.isolate && !spe.flags.emulate && (entry == DEFAULT_ENTRY || entry == spe.entry)
  }

  /** Where the SPE is started first: in emulated mode at the address kept in the context,
      elsewhere as the caller or the program asks; the trampoline goes first if there is one. */
  function FirstEntry(spe: SpeContext, kept: Word, entry: Word): Word {
    if PassesArguments(spe, entry) then Registers.BASE + 80
    else if spe.flags.emulate then kept
    else if entry == DEFAULT_ENTRY then spe.entry
    else entry
  }

  // ---------- what a run does to the contexts ----------

  type Memory = m: seq<Byte> | |m| == LS_SIZE witness seq(LS_SIZE, i => 0)

  /** What changes in a context: the entry point kept for emulated mode, whether the end of
      isolated mode has been requested, and local store. */
  datatype Life = Life(kept: Word, exitRequested: bool, mem: Memory)
  type World = map<SpeContext, Life>

  ghost function WorldOf(spes: set<SpeContext>): (w: World)
    requires Mapped(spes)
    reads spes, set s | s in spes :: s.mem
    ensures w.Keys == spes
  {
    map s | s in spes :: Life(s.emulatedEntry, s.exitRequested, s.mem[..])
  }

  function Stored(m: Memory, s: Store): Memory { m[..s.at] + s.bytes + m[s.at + |s.bytes|..] }

  ghost function Put(w: World, spe: SpeContext, s: Store): (r: World)
    requires spe in w
    ensures r.Keys == w.Keys
  {
    w[spe := w[spe].(mem := Stored(w[spe].mem, s))]
  }

  /** The first n of some stores. */
  ghost function AllPut(w: World, spe: SpeContext, ss: seq<Store>, n: nat): (r: World)
    requires spe in w && n <= |ss|
    ensures r.Keys == w.Keys
  {
    if n == 0 then w else Put(AllPut(w, spe, ss, n - 1), spe, ss[n - 1])
  }

  /** The register block and the trampoline, where arguments are passed. */
  ghost function Prepared(w: World, spe: SpeContext, entry: Word, args: Registers.Args): (r: World)
    requires spe in w
    ensures r.Keys == w.Keys
  {
    if PassesArguments(spe, entry) then
      var block := Registers.ArgumentBlock(spe.address, spe.mapped, args, spe.entry).Block();
      w[spe := w[spe].(mem := Registers.Installed(w[spe].mem, block, Registers.CODE))]
    else w
  }

  /** In emulated mode the npc is kept. */
  ghost function Remembered(w: World, spe: SpeContext, npc: Word): (r: World)
    requires spe in w
    ensures r.Keys == w.Keys
  {
    if spe.flags.emulate then w[spe := w[spe].(kept := npc)] else w
  }

  ghost function Requested(w: World, spe: SpeContext): (r: World)
    requires spe in w
    ensures r.Keys == w.Keys
  {
    w[spe := w[spe].(exitRequested := true)]
  }

  /** The end of isolated mode is requested after an exit, if the control area is mapped. */
  predicate RequestsExit(c: Setting, t: Turn) {
    IsExit(c.f, t.kernel) && c.f.isolate && c.controlMapped
  }

  /** The handler of a library call does what it does; an exit is requested. */
  ghost function AfterResult(c: Setting, spe: SpeContext, w: World, t: Turn): (r: World)
    requires spe in w && TurnWithin(t, w.Keys)
    ensures r.Keys == w.Keys
    decreases t, 0
  {
    if IsLibraryCall(c.f, c.noCallbacks, t.kernel) then AfterActs(spe, w, t.callback.acts, |t.callback.acts|)
    else if RequestsExit(c, t) then Requested(w, spe)
    else w
  }

  ghost function AfterTurn(c: Setting, spe: SpeContext, w: World, t: Turn): (r: World)
    requires spe in w && TurnWithin(t, w.Keys)
    ensures r.Keys == w.Keys
    decreases t, 1
  {
    AfterResult(c, spe, Remembered(AllPut(w, spe, t.stores, |t.stores|), spe, t.kernel.npc), t)
  }

  /** After the first i turns. */
  ghost function AfterTurns(c: Setting, spe: SpeContext, w: World, script: seq<Turn>, i: nat): (r: World)
    requires spe in w && Within(script, w.Keys) && i <= |script|
    ensures r.Keys == w.Keys
    decreases script, i
  {
    if i == 0 then w else AfterTurn(c, spe, AfterTurns(c, spe, w, script, i - 1), script[i - 1])
  }

  /** After the first k acts of a handler. */
  ghost function AfterActs(spe: SpeContext, w: World, acts: seq<Act>, k: nat): (r: World)
    requires spe in w && ActsWithin(acts, w.Keys) && k <= |acts|
    ensures r.Keys == w.Keys
    decreases acts, k
  {
    if k == 0 then w
    else
      var v := AfterActs(spe, w, acts, k - 1);
      match acts[k - 1]
      case Stores(s) => Put(v, spe, s)
      case Runs(r) =>
        assert acts decreases to acts[k - 1];
        AfterRun(v, r)
  }

  /** How many turns a script takes: up to the first stop. */
  function TurnsTaken(c: Setting, script: seq<Turn>): (n: nat)
    ensures n <= |script|
    ensures forall k: nat :: FirstStop(c, script, k) ==> n == k + 1
  {
    if |script| == 0 then 0
    else if Goes(c, script[0]) then
      assert forall k: nat :: FirstStop(c, script, k) ==> k > 0 && FirstStop(c, script[1..], k - 1);
      1 + TurnsTaken(c, script[1..])
    else 1
  }

  ghost function AfterRun(w: World, r: RunCall): (w': World)
    requires CallWithin(r, w.Keys)
    ensures w'.Keys == w.Keys
    decreases r
  {
    var c := SettingOf(r);
    AfterTurns(c, r.spe, Prepared(w, r.spe, r.entry, r.args), r.script, TurnsTaken(c, r.script))
  }

  // ---------- the steps of the code ----------

  /** The debugger's list shows the context and its last known position. */
  ghost predicate Shown(th: Thread, spe: SpeContext, npc: Word)
    reads th, th.active
  {
    th.active != null && th.active.speId == spe.fd && th.active.npc == npc
  }

  method StoreAt(spes: set<SpeContext>, spe: SpeContext, s: Store)
    requires Mapped(spes) && spe in spes
    modifies spe.mem
    ensures WorldOf(spes) == Put(old(WorldOf(spes)), spe, s)
  {
    CopyIn(spe.mem, s.at, s.bytes);
  }

  /** Lines 171-172: spu_run.  While it runs the debugger sees where the SPE was started. */
  method SpuRun(th: Thread, spes: set<SpeContext>, spe: SpeContext, tmpEntry: Word, t: Turn) returns (k: KernelResult)
    requires Mapped(spes) && spe in spes && Shown(th, spe, tmpEntry)
    modifies spe.mem
    ensures k == t.kernel && WorldOf(spes) == AllPut(old(WorldOf(spes)), spe, t.stores, |t.stores|)
  {
    hide WorldOf, Put;
    k := t.kernel;
    for n := 0 to |t.stores|
      invariant WorldOf(spes) == AllPut(old(WorldOf(spes)), spe, t.stores, n)
    {
      StoreAt(spes, spe, t.stores[n]);
    }
  }

  /** Lines 186-192: the npc goes to the caller or, in emulated mode, is kept for the next
      run, which starts there. */
  method Remember(spes: set<SpeContext>, spe: SpeContext, npc: Word) returns (outEntry: Word)
    requires Mapped(spes) && spe in spes
    modifies spe`emulatedEntry
    ensures WorldOf(spes) == Remembered(old(WorldOf(spes)), spe, npc)
    ensures outEntry == if spe.flags.emulate then 0 else npc
  {
    if spe.flags.emulate {
      spe.emulatedEntry := npc;
      outEntry := 0;
    } else {
      outEntry := npc;
    }
  }

  /** Lines 94-147: where to start, and the registers to start with. */
  method Prepare(spes: set<SpeContext>, spe: SpeContext, entry: Word, args: Registers.Args) returns (tmpEntry: Word)
    requires Mapped(spes) && spe in spes
    modifies spe.mem
    ensures tmpEntry == FirstEntry(spe, old(spe.emulatedEntry), entry)
    ensures WorldOf(spes) == Prepared(old(WorldOf(spes)), spe, entry, args)
  {
    if spe.flags.emulate {
      tmpEntry := spe.emulatedEntry;
    } else if entry == DEFAULT_ENTRY {
      tmpEntry := spe.entry;
    } else {
      tmpEntry := entry;
    }
    if tmpEntry == spe.entry && !(spe.flags.isolate || spe.flags.emulate) {
      var regs := Registers.BuildBlock(spe.address, spe.mapped, args, tmpEntry);
      var rc;
      rc, tmpEntry := Registers.SetupRegisters(spe.mem, regs);
    }
  }

  /** issue_isolated_exit: 0 if the request could be made. */
  method IssueIsolatedExit(spes: set<SpeContext>, spe: SpeContext) returns (rc: int)
    requires Mapped(spes) && spe in spes
    modifies spe`exitRequested
    ensures rc == (if spe.controlMapped then 0 else -1)
    ensures WorldOf(spes) == if spe.controlMapped then Requested(old(WorldOf(spes)), spe) else old(WorldOf(spes))
  {
    if !spe.controlMapped { return -1; }
    spe.exitRequested := true;
    return 0;
  }

  /** A library handler: its stores and runs, one after the other, then its return code. */
  method Handler(th: Thread, spes: set<SpeContext>, spe: SpeContext, c: Callback) returns (rc: Option<int>)
    requires Mapped(spes) && spe in spes && ActsWithin(c.acts, spes)
    modifies th, spes, set s | s in spes :: s.mem
    decreases c
    ensures rc.Some? <==>
      forall j :: 0 <= j < |c.acts| && c.acts[j].Runs? ==> Returns(SettingOf(c.acts[j].call), c.acts[j].call.script)
    ensures rc.Some? ==>
      && rc.value == c.rc && th.active == old(th.active)
      && WorldOf(spes) == AfterActs(spe, old(WorldOf(spes)), c.acts, |c.acts|)
  {
    hide WorldOf, Put, Returns, Within, AfterRun;
    for j := 0 to |c.acts|
      invariant th.active == old(th.active)
      invariant WorldOf(spes) == AfterActs(spe, old(WorldOf(spes)), c.acts, j)
      invariant forall i :: 0 <= i < j && c.acts[i].Runs? ==>
        Returns(SettingOf(c.acts[i].call), c.acts[i].call.script)
    {
      match c.acts[j] {
        case Stores(s) => StoreAt(spes, spe, s);
        case Runs(r) =>
          var out, started := ContextRun(th, spes, r.spe, r.entry, r.noCallbacks, r.args, r.info, r.script);
          if out.None? { return None; }
          assert r == RunCall(r.spe, r.entry, r.noCallbacks, r.args, r.info, r.script);
      }
    }
    return Some(c.rc);
  }

  datatype Verdict = Again(tmpEntry: Word, info: StopInfo) | Stop(retval: int, info: StopInfo, errno: Errno)

  /** Lines 184 and 195-342: what one result of the kernel leads to. */
  method Dispatch(th: Thread, spes: set<SpeContext>, spe: SpeContext, noCallbacks: bool, t: Turn, info: StopInfo)
    returns (v: Option<Verdict>)
    requires Mapped(spes) && spe in spes && TurnWithin(t, spes)
    requires Shown(th, spe, t.kernel.npc) && th.active.status == t.kernel.status
    modifies th, spes, set s | s in spes :: s.mem
    decreases t, 0
    ensures var c := Setting(spe.flags, spe.controlMapped, noCallbacks);
      && (v.Some? <==> HandlerReturns(c, t))
      && (v.Some? ==>
        && th.active == old(th.active)
        && WorldOf(spes) == AfterResult(c, spe, old(WorldOf(spes)), t)
        && (v.value.Again? <==> Goes(c, t))
        && v.value.info.payload == LastRecorded(c, [t], info.payload)
        && (v.value.Again? ==> v.value.tmpEntry == ResumeAt(c.f, noCallbacks, t))
        && (v.value.Stop? ==>
          && v.value.retval == ReturnOf(c.f, noCallbacks, t)
          && v.value.info.spuStatus == StatusOf(c.f, t)
          && v.value.errno == ErrnoOf(c.f, noCallbacks, t)))
  {
    hide WorldOf, AfterActs, ActsWithin, Requested, Returns, Mapped, StopCode, Signed32;
    var k := t.kernel;
    var stop := info.(spuStatus := Signed32(k.rc));
    var retval: int, errno := 0, Untouched;
    assert [t][..0] == [];
    if k.rc == 0xffff_ffff {
      stop := stop.(payload := Payload(RuntimeFatal, k.errno));
      retval, errno := -1, EPERM;
      if !(spe.flags.isolate && k.errno == EPERM_CODE) { errno := EFAULT; }
    } else if Has(k.rc, INVALID_INSTR) {
      stop := stop.(payload := Payload(RuntimeError, 0x20));
      retval, errno := -1, EFAULT;
    } else if spe.flags.events && k.status != 0 {
      stop := StopInfo(Payload(RuntimeException, k.status), -1);
      retval, errno := -1, EIO;
    } else if Has(k.rc, STOPPED_BY_STOP) {
      var stopcode := StopCode(k.rc);
      if stopcode / 0x100 == 0x21 && !noCallbacks {
        var rc := Handler(th, spes, spe, t.callback);
        if rc.None? { return None; }
        if rc.value != 0 {
          stop := stop.(payload := Payload(CallbackError, rc.value));
          retval, errno := -1, EFAULT;
        } else {
          return Some(Again((k.npc + 4) % 0x1_0000_0000, stop));
        }
      } else if stopcode / 0x100 == 0x20 {
        stop := stop.(payload := Payload(Exit, stopcode % 0x100));
        if spe.flags.isolate {
          var rc := IssueIsolatedExit(spes, spe);
          if rc == 0 { return Some(Again(k.npc, stop)); }
          retval := -1;
        }
      } else if stopcode / 0x10 == 0x220 {
        if stopcode == 0x2206 { return Some(Again(k.npc, stop)); }
        stop := stop.(payload := Payload(IsolationError, stopcode % 0x10));
        retval, errno := -1, EFAULT;
      } else if spe.flags.isolate && !Has(k.rc, ISOLATED_STATUS) {
        retval := 0;
      } else {
        stop := stop.(payload := Payload(StopAndSignal, stopcode));
        retval := stopcode;
      }
    } else if Has(k.rc, HALT) {
      stop := stop.(payload := Payload(RuntimeError, 0x04));
      retval, errno := -1, EFAULT;
    } else if Has(k.rc, WAITING_ON_CHANNEL) {
      stop := StopInfo(Payload(RuntimeException, k.status), -1);
      retval, errno := -1, EIO;
    } else if Has(k.rc, INVALID_CHANNEL) {
      stop := stop.(payload := Payload(RuntimeError, 0x40));
      retval, errno := -1, EFAULT;
    } else {
      stop := StopInfo(Payload(RuntimeFatal, -1), -1);
      retval, errno := -1, EFAULT;
    }
    return Some(Stop(retval, stop, errno));
  }

  lemma LastRecordedStep(c: Setting, turns: seq<Turn>, i: nat, before: Payload)
    requires i < |turns|
    ensures LastRecorded(c, turns[..i + 1], before) ==
            LastRecorded(c, [turns[i]], LastRecorded(c, turns[..i], before))
  {
    assert turns[..i + 1][..i] == turns[..i];
    assert [turns[i]][..0] == [];
  }

  lemma StartedStep(c: Setting, first: Word, turns: seq<Turn>, i: nat)
    requires i < |turns|
    ensures StartedAt(c, first, turns[..i + 1]) == StartedAt(c, first, turns[..i]) +
      [if i == 0 then first else ResumeAt(c.f, c.noCallbacks, turns[i - 1])]
  {}

  /** Lines 170-342: the SPE runs and the frame is brought up to date; what the result leads
      to, and what the turn leaves behind. */
  method TakeTurn(th: Thread, frame: ContextInfo, spes: set<SpeContext>, spe: SpeContext, tmpEntry: Word,
                  noCallbacks: bool, t: Turn, info: StopInfo)
    returns (v: Option<Verdict>, outEntry: Word)
    requires Mapped(spes) && spe in spes && TurnWithin(t, spes)
    requires th.active == frame && Shown(th, spe, tmpEntry)
    modifies th, frame, spes, set s | s in spes :: s.mem
    decreases t, 1
    ensures outEntry == if spe.flags.emulate then 0 else t.kernel.npc
    ensures frame.prev == old(frame.prev) && frame.speId == spe.fd
    ensures var c := Setting(spe.flags, spe.controlMapped, noCallbacks);
      && (v.Some? <==> HandlerReturns(c, t))
      && (v.Some? ==>
        && th.active == frame && WorldOf(spes) == AfterTurn(c, spe, old(WorldOf(spes)), t)
        && (v.value.Again? <==> Goes(c, t))
        && v.value.info.payload == LastRecorded(c, [t], info.payload)
        && (v.value.Again? ==> v.value.tmpEntry == ResumeAt(c.f, noCallbacks, t))
        && (v.value.Stop? ==>
          && v.value.retval == ReturnOf(c.f, noCallbacks, t)
          && v.value.info.spuStatus == StatusOf(c.f, t)
          && v.value.errno == ErrnoOf(c.f, noCallbacks, t)))
  {
    hide WorldOf, AllPut, Remembered, AfterResult, HandlerReturns, Goes, LastRecorded, ReturnOf, StatusOf, ErrnoOf;
    hide ResumeAt, TurnWithin, Mapped;
    var k := SpuRun(th, spes, spe, tmpEntry, t);
    ghost var w := WorldOf(spes);
    frame.npc := k.npc;
    frame.status := k.status;
    assert WorldOf(spes) == w;
    outEntry := Remember(spes, spe, k.npc);
    v := Dispatch(th, spes, spe, noCallbacks, t, info);
  }

  /** After i turns that all restarted: what has been recorded, where the SPE was started
      and where it is to be started next. */
  ghost predicate Course(c: Setting, first: Word, before: Payload, script: seq<Turn>, i: nat,
                         payload: Payload, tmpEntry: Word, started: seq<Word>)
  {
    && i == |started| <= |script| && (forall j :: 0 <= j < i ==> Goes(c, script[j]))
    && payload == LastRecorded(c, script[..i], before)
    && started == StartedAt(c, first, script[..i])
    && tmpEntry == (if i == 0 then first else ResumeAt(c.f, c.noCallbacks, script[i - 1]))
    && Returns(c, script[i..]) == Returns(c, script)
  }

  lemma CourseBegins(c: Setting, first: Word, before: Payload, script: seq<Turn>)
    ensures Course(c, first, before, script, 0, before, first, [])
  {
    assert script[0..] == script && script[..0] == [];
  }

  /** The next turn restarts or stops. */
  lemma CourseGoesOn(c: Setting, first: Word, before: Payload, script: seq<Turn>, i: nat,
                     payload: Payload, tmpEntry: Word, started: seq<Word>, payload': Payload)
    requires Course(c, first, before, script, i, payload, tmpEntry, started) && i < |script|
    requires HandlerReturns(c, script[i]) && payload' == LastRecorded(c, [script[i]], payload)
    ensures Goes(c, script[i]) ==>
      Course(c, first, before, script, i + 1, payload', ResumeAt(c.f, c.noCallbacks, script[i]), started + [tmpEntry])
    ensures !Goes(c, script[i]) ==>
      && Returns(c, script) && FirstStop(c, script, i)
      && payload' == LastRecorded(c, script[..i + 1], before)
      && started + [tmpEntry] == StartedAt(c, first, script[..i + 1])
  {
    hide Goes, HandlerReturns, ResumeAt, LastRecorded, StartedAt;
    StartedStep(c, first, script, i);
    LastRecordedStep(c, script, i, before);
    assert script[i..][0] == script[i] && script[i..][1..] == script[i + 1..];
  }

  lemma CourseEnds(c: Setting, first: Word, before: Payload, script: seq<Turn>, i: nat,
                   payload: Payload, tmpEntry: Word, started: seq<Word>)
    requires Course(c, first, before, script, i, payload, tmpEntry, started)
    requires i == |script| || !HandlerReturns(c, script[i])
    ensures !Returns(c, script)
  {
    hide Goes, HandlerReturns, ResumeAt, LastRecorded, StartedAt;
    if i < |script| { assert script[i..][0] == script[i]; }
  }

  /** Lines 166-342, with the frame at the head of the debugger's list. */
  method RunTurns(th: Thread, frame: ContextInfo, spes: set<SpeContext>, spe: SpeContext, first: Word,
                  noCallbacks: bool, info: StopInfo, script: seq<Turn>)
    returns (out: Option<Outcome>, started: seq<Word>)
    requires Mapped(spes) && spe in spes && Within(script, spes)
    requires th.active == frame && frame.speId == spe.fd
    modifies th, frame, spes, set s | s in spes :: s.mem
    decreases script, 0
    ensures var c := Setting(spe.flags, spe.controlMapped, noCallbacks);
      out.Some? <==> Returns(c, script)
    ensures out.Some? ==> th.active == frame && frame.prev == old(frame.prev)
    ensures out.Some? ==>
      var c := Setting(spe.flags, spe.controlMapped, noCallbacks);
      |started| > 0 && FirstStop(c, script, |started| - 1)
      && out.value == OutcomeAt(c, script, |started| - 1, info.payload)
      && started == StartedAt(c, first, script[..|started|])
      && WorldOf(spes) == AfterTurns(c, spe, old(WorldOf(spes)), script, |started|)
  {
    hide Goes, HandlerReturns, Returns, FirstStop, ResumeAt, Recorded, ReturnOf, StatusOf, ErrnoOf, LastRecorded;
    hide StartedAt;
    hide Course, WorldOf, AfterTurn, TurnWithin, Mapped;
    ghost var c := Setting(spe.flags, spe.controlMapped, noCallbacks);
    var tmpEntry, stop, i := first, info, 0;
    started := [];
    CourseBegins(c, first, info.payload, script);
    while true
      invariant 0 <= i == |started| <= |script|
      invariant th.active == frame && frame.prev == old(frame.prev) && frame.speId == spe.fd
      invariant Course(c, first, info.payload, script, i, stop.payload, tmpEntry, started)
      invariant WorldOf(spes) == AfterTurns(c, spe, old(WorldOf(spes)), script, i)
      decreases |script| - i
    {
      ghost var w := WorldOf(spes);
      frame.npc := tmpEntry;
      assert WorldOf(spes) == w;
      if i == |script| {
        CourseEnds(c, first, info.payload, script, i, stop.payload, tmpEntry, started);
        return None, started;
      }
      ghost var payload, from, so := stop.payload, tmpEntry, started;
      var t := script[i];
      started := started + [tmpEntry];
      var v, outEntry := TakeTurn(th, frame, spes, spe, tmpEntry, noCallbacks, t, stop);
      if v.None? {
        CourseEnds(c, first, info.payload, script, i, payload, from, so);
        return None, started;
      }
      stop := v.value.info;
      CourseGoesOn(c, first, info.payload, script, i, payload, from, so, stop.payload);
      i := i + 1;
      if v.value.Stop? { return Some(Outcome(v.value.retval, stop, outEntry, v.value.errno)), started; }
      tmpEntry := v.value.tmpEntry;
    }
  }

  /** Lines 149-164: a new frame at the head of the debugger's list */
  method Push(th: Thread, spe: SpeContext) returns (frame: ContextInfo)
    modifies th
    ensures fresh(frame) && th.active == frame && frame.prev == old(th.active) && frame.speId == spe.fd
  {
    frame := new ContextInfo();
    if th.active == null {
      th.active := frame;
      frame.prev := null;
    } else {
      frame.prev := th.active;
      th.active := frame;
    }
    th.active.speId := spe.fd;
  }

  /** Both clean-ups: freespeinfo at line 344, and cleanupspeinfo when the frame goes out of
      scope. */
  method Pop(th: Thread, frame: ContextInfo)
    requires th.active == frame
    modifies th
    ensures th.active == frame.prev
  {
    th.active := th.active.prev;
    th.active := frame.prev;
  }

  /** Lines 149-345 */
  method Launch(th: Thread, spes: set<SpeContext>, spe: SpeContext, first: Word, noCallbacks: bool,
                info: StopInfo, script: seq<Turn>)
    returns (out: Option<Outcome>, started: seq<Word>)
    requires Mapped(spes) && spe in spes && Within(script, spes)
    modifies th, spes, set s | s in spes :: s.mem
    decreases script, 1
    ensures var c := Setting(spe.flags, spe.controlMapped, noCallbacks);
      out.Some? <==> Returns(c, script)
    ensures out.Some? ==> th.active == old(th.active)
    ensures out.Some? ==>
      var c := Setting(spe.flags, spe.controlMapped, noCallbacks);
      |started| > 0 && FirstStop(c, script, |started| - 1)
      && out.value == OutcomeAt(c, script, |started| - 1, info.payload)
      && started == StartedAt(c, first, script[..|started|])
      && WorldOf(spes) == AfterTurns(c, spe, old(WorldOf(spes)), script, |started|)
  {
    hide *;
    var frame := Push(th, spe);
    out, started := RunTurns(th, frame, spes, spe, first, noCallbacks, info, script);
    if out.Some? { Pop(th, frame); }
  }

  /** _base_spe_context_run; nothing is returned when the script does not lead to a stop.
      `started` are the addresses spu_run was called with. */
  method ContextRun(th: Thread, spes: set<SpeContext>, spe: SpeContext, entry: Word, noCallbacks: bool,
                    args: Registers.Args, info: StopInfo, script: seq<Turn>)
    returns (out: Option<Outcome>, started: seq<Word>)
    requires Mapped(spes) && spe in spes && Within(script, spes)
    modifies th, spes, set s | s in spes :: s.mem
    decreases script, 2
    ensures var c := Setting(spe.flags, spe.controlMapped, noCallbacks);
      out.Some? <==> Returns(c, script)
    ensures out.Some? ==> th.active == old(th.active)
    ensures out.Some? ==>
      var c := Setting(spe.flags, spe.controlMapped, noCallbacks);
      |started| > 0 && FirstStop(c, script, |started| - 1)
      && out.value == OutcomeAt(c, script, |started| - 1, info.payload)
      && started == StartedAt(c, FirstEntry(spe, old(spe.emulatedEntry), entry), script[..|started|])
      && WorldOf(spes) == AfterRun(old(WorldOf(spes)), RunCall(spe, entry, noCallbacks, args, info, script))
  {
    hide WorldOf, Prepared, AfterTurns, TurnsTaken, Returns, FirstStop, OutcomeAt, StartedAt, Within, Mapped;
    var tmpEntry := Prepare(spes, spe, entry, args);
    out, started := Launch(th, spes, spe, tmpEntry, noCallbacks, info, script);
  }

  // ---------- what the contract of ContextRun comes to ----------

  /** A run returns exactly when its script has a first stop and every handler that runs
      on the way, the last turn's included, returns. */
  lemma {:induction false} ReturnsIff(c: Setting, script: seq<Turn>)
    ensures Returns(c, script) <==>
      exists k: nat :: FirstStop(c, script, k) && forall i :: 0 <= i <= k ==> HandlerReturns(c, script[i])
  {
    if |script| > 0 {
      var rest := script[1..];
      ReturnsIff(c, rest);
      if Returns(c, script) {
        if Goes(c, script[0]) {
          var k: nat :| FirstStop(c, rest, k) && forall i :: 0 <= i <= k ==> HandlerReturns(c, rest[i]);
          assert FirstStop(c, script, k + 1);
          forall i | 0 <= i <= k + 1 ensures HandlerReturns(c, script[i]) {
            if i > 0 { assert script[i] == rest[i - 1]; }
          }
        } else {
          assert FirstStop(c, script, 0);
        }
      }
      if k: nat :| FirstStop(c, script, k) && forall i :: 0 <= i <= k ==> HandlerReturns(c, script[i]) {
        if k > 0 {
          assert FirstStop(c, rest, k - 1);
          assert forall i :: 0 <= i <= k - 1 ==> rest[i] == script[i + 1];
        }
      }
    }
  }

  /** The recorded payload is that of the last turn that records one. */
  lemma {:induction false} LastRecordedIs(c: Setting, turns: seq<Turn>, before: Payload, j: nat)
    requires j < |turns| && Recorded(c.f, c.noCallbacks, turns[j]).Some?
    requires forall i :: j < i < |turns| ==> Recorded(c.f, c.noCallbacks, turns[i]).None?
    ensures LastRecorded(c, turns, before) == Recorded(c.f, c.noCallbacks, turns[j]).value
  {
    if j < |turns| - 1 { LastRecordedIs(c, turns[..|turns| - 1], before, j); }
  }

  lemma {:induction false} NothingRecorded(c: Setting, turns: seq<Turn>, before: Payload)
    requires forall i :: 0 <= i < |turns| ==> Recorded(c.f, c.noCallbacks, turns[i]).None?
    ensures LastRecorded(c, turns, before) == before
  {
    if |turns| > 0 { NothingRecorded(c, turns[..|turns| - 1], before); }
  }

  /** The exit code reported before the extra run that ends isolated mode is what the
      caller finds after it. */
  lemma ExitSurvives(c: Setting, script: seq<Turn>, k: nat, j: nat, before: Payload)
    requires FirstStop(c, script, k) && LeavesIsolation(c.f, c.noCallbacks, script[k].kernel)
    requires j < k && IsExit(c.f, script[j].kernel)
    requires forall i :: j < i < k ==> !IsExit(c.f, script[i].kernel)
    ensures OutcomeAt(c, script, k, before).retval == 0
    ensures OutcomeAt(c, script, k, before).info.payload == Payload(Exit, StopCode(script[j].kernel.rc) % 0x100)
    ensures OutcomeAt(c, script, k, before).errno == Untouched
  {
    forall i | j < i <= k ensures Recorded(c.f, c.noCallbacks, script[i]).None? {
      if i < k { OnlyExitsAreRecorded(c, script[i]); }
    }
    assert Goes(c, script[j]);
    LastRecordedIs(c, script[..k + 1], before, j);
  }

  /** A run that ends isolated mode without an exit before it leaves the caller's payload. */
  lemma NothingReported(c: Setting, script: seq<Turn>, k: nat, before: Payload)
    requires FirstStop(c, script, k) && LeavesIsolation(c.f, c.noCallbacks, script[k].kernel)
    requires forall i :: 0 <= i < k ==> !IsExit(c.f, script[i].kernel)
    ensures OutcomeAt(c, script, k, before).retval == 0
    ensures OutcomeAt(c, script, k, before).info.payload == before
  {
    var turns := script[..k + 1];
    forall i | 0 <= i < |turns| ensures Recorded(c.f, c.noCallbacks, turns[i]).None? {
      if i < k { OnlyExitsAreRecorded(c, script[i]); }
    }
    NothingRecorded(c, turns, before);
  }

  /** Of the results that start the SPE again only an exit leaves a trace. */
  lemma OnlyExitsAreRecorded(c: Setting, t: Turn)
    requires Goes(c, t)
    ensures Recorded(c.f, c.noCallbacks, t).Some? <==> IsExit(c.f, t.kernel)
  {}

  /** The SPE is started again past the call only after a handler that returned 0, and
      at the address where it stopped otherwise. */
  lemma RestartAddress(c: Setting, first: Word, script: seq<Turn>, k: nat, i: nat)
    requires FirstStop(c, script, k) && i < k
    ensures var s := StartedAt(c, first, script[..k + 1]);
      && s[0] == first
      && (s[i + 1] != script[i].kernel.npc ==>
           && s[i + 1] == (script[i].kernel.npc + 4) % 0x1_0000_0000
           && IsLibraryCall(c.f, c.noCallbacks, script[i].kernel) && script[i].callback.rc == 0)
      && (IsLibraryCall(c.f, c.noCallbacks, script[i].kernel) ==> s[i + 1] != script[i].kernel.npc)
  {
    assert Goes(c, script[i]);
    assert script[..k + 1][i] == script[i];
  }

  /** Outside isolated mode the first result that is not a successful library call decides;
      an exit returns 0 with its code. */
  lemma PlainRun(c: Setting, script: seq<Turn>, k: nat, before: Payload)
    requires FirstStop(c, script, k) && !c.f.isolate
    ensures OutcomeAt(c, script, k, before).info.payload ==
            var p := Recorded(c.f, c.noCallbacks, script[k]); if p.Some? then p.value else before
    ensures Recorded(c.f, c.noCallbacks, script[k]).Some?
    ensures OutcomeAt(c, script, k, before).retval >= 0 <==>
            OutcomeAt(c, script, k, before).info.payload.reason in {Exit, StopAndSignal}
  {
    LastRecordedIs(c, script[..k + 1], before, k);
  }

  // ---------- the results of the kernel, by their raw status ----------

  /** A run that gets this result ends with it: the return value, what is recorded, if
      anything, the status word and errno. */
  predicate Ends(c: Setting, script: seq<Turn>, k: nat, before: Payload,
                 retval: int, p: Option<Payload>, status: int, errno: Errno)
    requires k < |script|
  {
    && !Goes(c, script[k])
    && OutcomeAt(c, script, k, before) ==
         Outcome(retval, StopInfo(if p.Some? then p.value else LastRecorded(c, script[..k], before), status),
                 if c.f.emulate then 0 else script[k].kernel.npc, errno)
  }

  /** The SPE is started again, at this address, with this recorded, if anything. */
  ghost predicate Continues(c: Setting, t: Turn, at: Word, p: Option<Payload>) {
    && Goes(c, t) && ResumeAt(c.f, c.noCallbacks, t) == at
    && forall before :: LastRecorded(c, [t], before) == if p.Some? then p.value else before
  }

  lemma EndsIf(c: Setting, script: seq<Turn>, k: nat, before: Payload)
    requires k < |script| && !Goes(c, script[k])
    ensures var t := script[k];
      Ends(c, script, k, before, ReturnOf(c.f, c.noCallbacks, t), Recorded(c.f, c.noCallbacks, t),
           StatusOf(c.f, t),
           ErrnoOf(c.f, c.noCallbacks, t))
  {
    hide Goes, ReturnOf, Recorded, StatusOf, ErrnoOf;
    assert script[..k + 1][..k] == script[..k];
  }

  lemma ContinuesIf(c: Setting, t: Turn)
    requires Goes(c, t)
    ensures Continues(c, t, ResumeAt(c.f, c.noCallbacks, t), Recorded(c.f, c.noCallbacks, t))
  {
    hide Goes, ResumeAt, Recorded;
    forall before
      ensures LastRecorded(c, [t], before) ==
        var p := Recorded(c.f, c.noCallbacks, t); if p.Some? then p.value else before
    {
      assert [t][..0] == [] && LastRecorded(c, [], before) == before;
    }
  }

  /** The status of an SPE that has executed a stop instruction with this 14-bit code, and
      nothing is wrong with it. */
  predicate StopsWith(f: Flags, k: KernelResult, top: nat, code: nat, low: nat) {
    && top < 4 && code < 0x4000 && low < 0x1_0000
    && k.rc == top * 0x4000_0000 + code * 0x1_0000 + low && k.rc != 0xffff_ffff
    && low / 0x02 % 2 == 1 && low / 0x20 % 2 == 0
    && !(f.events && k.status != 0)
  }

  /** The code is where the stop instruction puts it. */
  lemma StopDecoded(f: Flags, k: KernelResult, top: nat, code: nat, low: nat)
    requires StopsWith(f, k, top, code, low)
    ensures CleanStop(f, k) && StopCode(k.rc) == code && (Has(k.rc, ISOLATED_STATUS) <==> low / 0x80 % 2 == 1)
  {
    assert k.rc / 0x1_0000 == top * 0x4000 + code;
    LowBits(top * 0x4000 + code, low);
  }

  /** A bit of the lower half of a word is a bit of the word. */
  lemma LowBits(high: nat, low: nat)
    requires low < 0x1_0000
    ensures var rc := high * 0x1_0000 + low;
      rc / 0x02 % 2 == low / 0x02 % 2 && rc / 0x20 % 2 == low / 0x20 % 2 && rc / 0x80 % 2 == low / 0x80 % 2
  {
    LowBit02(high, low);
    LowBit20(high, low);
    LowBit80(high, low);
  }

  lemma LowBit02(high: nat, low: nat)
    ensures (high * 0x1_0000 + low) / 0x02 % 2 == low / 0x02 % 2
  {
    assert (high * 0x1_0000 + low) / 0x02 == high * 0x8000 + low / 0x02;
    Evened(high * 0x4000, low / 0x02);
  }

  lemma LowBit20(high: nat, low: nat)
    ensures (high * 0x1_0000 + low) / 0x20 % 2 == low / 0x20 % 2
  {
    assert (high * 0x1_0000 + low) / 0x20 == high * 0x800 + low / 0x20;
    Evened(high * 0x400, low / 0x20);
  }

  lemma LowBit80(high: nat, low: nat)
    ensures (high * 0x1_0000 + low) / 0x80 % 2 == low / 0x80 % 2
  {
    assert (high * 0x1_0000 + low) / 0x80 == high * 0x200 + low / 0x80;
    Evened(high * 0x100, low / 0x80);
  }

  lemma Evened(m: nat, b: nat)
    ensures (2 * m + b) % 2 == b % 2
  {}

  /** A 32-bit status as an int. */
  function AsInt(rc: Word): int { if rc >= 0x8000_0000 then rc - 0x1_0000_0000 else rc }

  /** Code 0x2000 + x is exit(x). */
  lemma ExitResult(c: Setting, script: seq<Turn>, k: nat, before: Payload, top: nat, x: nat, low: nat)
    requires k < |script| && StopsWith(c.f, script[k].kernel, top, 0x2000 + x, low) && x < 0x100
    ensures !c.f.isolate || !c.controlMapped ==>
      Ends(c, script, k, before, if c.f.isolate then -1 else 0, Some(Payload(Exit, x)), AsInt(script[k].kernel.rc),
           Untouched)
    ensures c.f.isolate && c.controlMapped ==> Continues(c, script[k], script[k].kernel.npc, Some(Payload(Exit, x)))
  {
    StopDecoded(c.f, script[k].kernel, top, 0x2000 + x, low);
    hide StopCode, Has, Ends, Continues;
    if Goes(c, script[k]) { ContinuesIf(c, script[k]); } else { EndsIf(c, script, k, before); }
  }

  /** Code 0x2100 + x is library call x, if callbacks are allowed. */
  lemma CallResult(c: Setting, script: seq<Turn>, k: nat, before: Payload, top: nat, x: nat, low: nat)
    requires k < |script| && StopsWith(c.f, script[k].kernel, top, 0x2100 + x, low) && x < 0x100 && !c.noCallbacks
    ensures script[k].callback.rc == 0 ==> Continues(c, script[k], (script[k].kernel.npc + 4) % 0x1_0000_0000, None)
    ensures script[k].callback.rc != 0 ==>
      Ends(c, script, k, before, -1, Some(Payload(CallbackError, script[k].callback.rc)),
           AsInt(script[k].kernel.rc), EFAULT)
  {
    StopDecoded(c.f, script[k].kernel, top, 0x2100 + x, low);
    hide StopCode, Has, Ends, Continues;
    if Goes(c, script[k]) { ContinuesIf(c, script[k]); } else { EndsIf(c, script, k, before); }
  }

  /** Codes from 0x2200 to 0x220f are for isolated mode. */
  lemma IsolatedResult(c: Setting, script: seq<Turn>, k: nat, before: Payload, top: nat, x: nat, low: nat)
    requires k < |script| && StopsWith(c.f, script[k].kernel, top, 0x2200 + x, low) && x < 0x10
    ensures x == 6 ==> Continues(c, script[k], script[k].kernel.npc, None)
    ensures x != 6 ==>
      Ends(c, script, k, before, -1, Some(Payload(IsolationError, x)), AsInt(script[k].kernel.rc), EFAULT)
  {
    StopDecoded(c.f, script[k].kernel, top, 0x2200 + x, low);
    hide StopCode, Has, Ends, Continues;
    if Goes(c, script[k]) { ContinuesIf(c, script[k]); } else { EndsIf(c, script, k, before); }
  }

  /** Every other code is the program's own, except at the end of isolated mode. */
  lemma SignalResult(c: Setting, script: seq<Turn>, k: nat, before: Payload, top: nat, code: nat, low: nat)
    requires k < |script| && StopsWith(c.f, script[k].kernel, top, code, low)
    requires !(0x2000 <= code < 0x2100) && !(0x2100 <= code < 0x2200 && !c.noCallbacks) && !(0x2200 <= code < 0x2210)
    ensures !c.f.isolate || low / 0x80 % 2 == 1 ==>
      Ends(c, script, k, before, code, Some(Payload(StopAndSignal, code)), AsInt(script[k].kernel.rc), Untouched)
    ensures c.f.isolate && low / 0x80 % 2 == 0 ==>
      Ends(c, script, k, before, 0, None, AsInt(script[k].kernel.rc), Untouched)
  {
    StopDecoded(c.f, script[k].kernel, top, code, low);
    hide StopCode, Has, Ends;
    EndsIf(c, script, k, before);
  }

  /** What is not a stop, with errno 1 being EPERM. */
  lemma FaultResult(c: Setting, script: seq<Turn>, k: nat, before: Payload)
    requires k < |script|
    requires var r := script[k].kernel; var rc := r.rc;
      rc == 0xffff_ffff || rc / 0x20 % 2 == 1 || (c.f.events && r.status != 0) || rc / 0x02 % 2 == 0
    ensures var r := script[k].kernel; var rc := r.rc;
      if rc == 0xffff_ffff then
        Ends(c, script, k, before, -1, Some(Payload(RuntimeFatal, r.errno)), -1,
             if c.f.isolate && r.errno == 1 then EPERM else EFAULT)
      else if rc / 0x20 % 2 == 1 then
        Ends(c, script, k, before, -1, Some(Payload(RuntimeError, 0x20)), AsInt(rc), EFAULT)
      else if c.f.events && r.status != 0 then
        Ends(c, script, k, before, -1, Some(Payload(RuntimeException, r.status)), -1, EIO)
      else if rc / 0x04 % 2 == 1 then
        Ends(c, script, k, before, -1, Some(Payload(RuntimeError, 0x04)), AsInt(rc), EFAULT)
      else if rc / 0x08 % 2 == 1 then
        Ends(c, script, k, before, -1, Some(Payload(RuntimeException, r.status)), -1, EIO)
      else if rc / 0x40 % 2 == 1 then
        Ends(c, script, k, before, -1, Some(Payload(RuntimeError, 0x40)), AsInt(rc), EFAULT)
      else Ends(c, script, k, before, -1, Some(Payload(RuntimeFatal, -1)), -1, EFAULT)
  {
    hide Ends;
    EndsIf(c, script, k, before);
  }

  /** Where a run starts, with the default entry point for an argument of all ones. */
  lemma StartsAt(spe: SpeContext, kept: Word, entry: Word)
    ensures var asked := if entry == 0xffff_ffff then spe.entry else entry;
      && (spe.flags.emulate ==> FirstEntry(spe, kept, entry) == kept && !PassesArguments(spe, entry))
      && (!spe.flags.emulate && (spe.flags.isolate || asked != spe.entry) ==>
           FirstEntry(spe, kept, entry) == asked && !PassesArguments(spe, entry))
      && (!spe.flags.emulate && !spe.flags.isolate && asked == spe.entry ==>
           FirstEntry(spe, kept, entry) == 0x3ffd0 && PassesArguments(spe, entry))
  {}

  // ---------- what runs leave behind ----------

  /** An exit once requested stays requested, whatever runs afterwards. */
  lemma {:induction false} ExitsStay(w: World, r: RunCall, s: SpeContext)
    requires CallWithin(r, w.Keys) && s in w && w[s].exitRequested
    ensures AfterRun(w, r)[s].exitRequested
    decreases r
  {
    var c, v := SettingOf(r), Prepared(w, r.spe, r.entry, r.args);
    TurnsKeepExit(c, r.spe, v, r.script, 0, TurnsTaken(c, r.script), s);
  }

  lemma {:induction false} TurnsKeepExit(c: Setting, spe: SpeContext, w: World, script: seq<Turn>, i: nat, n: nat,
                                         s: SpeContext)
    requires spe in w && Within(script, w.Keys) && i <= n <= |script| && s in w
    requires AfterTurns(c, spe, w, script, i)[s].exitRequested
    ensures AfterTurns(c, spe, w, script, n)[s].exitRequested
    decreases script, n
  {
    hide AfterTurn;
    if i < n {
      TurnsKeepExit(c, spe, w, script, i, n - 1, s);
      TurnKeepsExit(c, spe, AfterTurns(c, spe, w, script, n - 1), script[n - 1], s);
    }
  }

  lemma {:induction false} TurnKeepsExit(c: Setting, spe: SpeContext, w: World, t: Turn, s: SpeContext)
    requires spe in w && TurnWithin(t, w.Keys) && s in w && w[s].exitRequested
    ensures AfterTurn(c, spe, w, t)[s].exitRequested
    decreases t
  {
    var v := AllPut(w, spe, t.stores, |t.stores|);
    PutsAreStores(w, spe, t.stores, |t.stores|, s);
    if IsLibraryCall(c.f, c.noCallbacks, t.kernel) {
      ActsKeepExit(spe, Remembered(v, spe, t.kernel.npc), t.callback.acts, |t.callback.acts|, s);
    }
  }

  lemma {:induction false} ActsKeepExit(spe: SpeContext, w: World, acts: seq<Act>, k: nat, s: SpeContext)
    requires spe in w && ActsWithin(acts, w.Keys) && k <= |acts| && s in w && w[s].exitRequested
    ensures AfterActs(spe, w, acts, k)[s].exitRequested
    decreases acts, k
  {
    hide AfterRun;
    if k > 0 {
      ActsKeepExit(spe, w, acts, k - 1, s);
      match acts[k - 1]
      case Stores(_) =>
      case Runs(r) =>
        assert acts decreases to acts[k - 1];
        ExitsStay(AfterActs(spe, w, acts, k - 1), r, s);
    }
  }

  /** Stores change local store only, and only that of their own context. */
  lemma {:induction false} PutsAreStores(w: World, spe: SpeContext, ss: seq<Store>, n: nat, s: SpeContext)
    requires spe in w && n <= |ss| && s in w
    ensures var v := AllPut(w, spe, ss, n);
      v[s].kept == w[s].kept && v[s].exitRequested == w[s].exitRequested && (s != spe ==> v[s] == w[s])
  {
    if n > 0 { PutsAreStores(w, spe, ss, n - 1, s); }
  }

  /** Each exit on the way in isolated mode has requested the end of it. */
  lemma ExitIsRequested(w: World, r: RunCall, i: nat)
    requires CallWithin(r, w.Keys) && i < TurnsTaken(SettingOf(r), r.script)
    requires RequestsExit(SettingOf(r), r.script[i])
    ensures AfterRun(w, r)[r.spe].exitRequested
  {
    hide AfterTurns, AllPut, Remembered;
    var c, v := SettingOf(r), Prepared(w, r.spe, r.entry, r.args);
    OneMoreTurn(c, r.spe, v, r.script, i);
    TurnsKeepExit(c, r.spe, v, r.script, i + 1, TurnsTaken(c, r.script), r.spe);
  }

  lemma OneMoreTurn(c: Setting, spe: SpeContext, w: World, script: seq<Turn>, i: nat)
    requires spe in w && Within(script, w.Keys) && i < |script|
    ensures AfterTurns(c, spe, w, script, i + 1) == AfterTurn(c, spe, AfterTurns(c, spe, w, script, i), script[i])
  {}

  /** In emulated mode a run whose last result is not followed by further runs leaves its
      npc behind, and the next run starts there, whatever entry it asks for. */
  lemma EmulationResumes(w: World, r: RunCall, entry: Word)
    requires CallWithin(r, w.Keys) && r.spe.flags.emulate && TurnsTaken(SettingOf(r), r.script) > 0
    requires var t := r.script[TurnsTaken(SettingOf(r), r.script) - 1];
      forall j :: 0 <= j < |t.callback.acts| ==> t.callback.acts[j].Stores?
    ensures FirstEntry(r.spe, AfterRun(w, r)[r.spe].kept, entry) ==
      r.script[TurnsTaken(SettingOf(r), r.script) - 1].kernel.npc
  {
    hide AfterTurns, AllPut, AfterActs;
    var c, v := SettingOf(r), Prepared(w, r.spe, r.entry, r.args);
    var n := TurnsTaken(c, r.script);
    OneMoreTurn(c, r.spe, v, r.script, n - 1);
    var t, u := r.script[n - 1], AfterTurns(c, r.spe, v, r.script, n - 1);
    var before := Remembered(AllPut(u, r.spe, t.stores, |t.stores|), r.spe, t.kernel.npc);
    JustStores(r.spe, before, t.callback.acts, |t.callback.acts|);
  }

  lemma {:induction false} JustStores(spe: SpeContext, w: World, acts: seq<Act>, k: nat)
    requires spe in w && ActsWithin(acts, w.Keys) && k <= |acts| && forall j :: 0 <= j < |acts| ==> acts[j].Stores?
    ensures AfterActs(spe, w, acts, k)[spe].kept == w[spe].kept
  {
    if k > 0 { JustStores(spe, w, acts, k - 1); }
  }

  /** A context that neither is run nor runs in a handler on the way stays as it was. */
  lemma {:induction false} Bystander(w: World, r: RunCall, others: set<SpeContext>, s: SpeContext)
    requires CallWithin(r, w.Keys) && CallWithin(r, others) && s in w && s !in others
    ensures AfterRun(w, r)[s] == w[s]
    decreases r
  {
    var c, v := SettingOf(r), Prepared(w, r.spe, r.entry, r.args);
    BystanderOfTurns(c, r.spe, v, r.script, TurnsTaken(c, r.script), others, s);
  }

  lemma {:induction false} BystanderOfTurns(c: Setting, spe: SpeContext, w: World, script: seq<Turn>, n: nat,
                                            others: set<SpeContext>, s: SpeContext)
    requires spe in w && Within(script, w.Keys) && n <= |script| && Within(script, others)
    requires s in w && s !in others && spe in others
    ensures AfterTurns(c, spe, w, script, n)[s] == w[s]
    decreases script, n
  {
    hide AfterTurn;
    if n > 0 {
      BystanderOfTurns(c, spe, w, script, n - 1, others, s);
      BystanderOfTurn(c, spe, AfterTurns(c, spe, w, script, n - 1), script[n - 1], others, s);
    }
  }

  lemma {:induction false} BystanderOfTurn(c: Setting, spe: SpeContext, w: World, t: Turn, others: set<SpeContext>,
                                           s: SpeContext)
    requires spe in w && TurnWithin(t, w.Keys) && TurnWithin(t, others) && s in w && s !in others && spe in others
    ensures AfterTurn(c, spe, w, t)[s] == w[s]
    decreases t
  {
    var v := AllPut(w, spe, t.stores, |t.stores|);
    PutsAreStores(w, spe, t.stores, |t.stores|, s);
    if IsLibraryCall(c.f, c.noCallbacks, t.kernel) {
      BystanderOfActs(spe, Remembered(v, spe, t.kernel.npc), t.callback.acts, |t.callback.acts|, others, s);
    }
  }

  lemma {:induction false} BystanderOfActs(spe: SpeContext, w: World, acts: seq<Act>, k: nat,
                                           others: set<SpeContext>, s: SpeContext)
    requires spe in w && ActsWithin(acts, w.Keys) && k <= |acts| && ActsWithin(acts, others)
    requires s in w && s !in others && spe in others
    ensures AfterActs(spe, w, acts, k)[s] == w[s]
    decreases acts, k
  {
    hide AfterRun;
    if k > 0 {
      BystanderOfActs(spe, w, acts, k - 1, others, s);
      match acts[k - 1]
      case Stores(_) =>
      case Runs(r) =>
        assert acts decreases to acts[k - 1];
        Bystander(AfterActs(spe, w, acts, k - 1), r, others, s);
    }
  }

  // ---------- local store ----------

  /** Nothing is stored at address a by a turn, and no handler runs a context. */
  predicate Spares(t: Turn, a: nat) {
    && (forall j :: 0 <= j < |t.stores| ==> Clear(t.stores[j], a))
    && forall j :: 0 <= j < |t.callback.acts| ==> t.callback.acts[j].Stores? && Clear(t.callback.acts[j].store, a)
  }

  predicate Clear(s: Store, a: nat) { !(s.at <= a < s.at + |s.bytes|) }

  /** What was installed stays in local store until it is overwritten. */
  lemma ByteStays(w: World, r: RunCall, a: nat)
    requires CallWithin(r, w.Keys) && a < LS_SIZE
    requires forall i :: 0 <= i < TurnsTaken(SettingOf(r), r.script) ==> Spares(r.script[i], a)
    ensures AfterRun(w, r)[r.spe].mem[a] == Prepared(w, r.spe, r.entry, r.args)[r.spe].mem[a]
  {
    hide Spares, Prepared;
    var c := SettingOf(r);
    TurnsSpare(c, r.spe, Prepared(w, r.spe, r.entry, r.args), r.script, TurnsTaken(c, r.script), a);
  }

  lemma {:induction false} TurnsSpare(c: Setting, spe: SpeContext, w: World, script: seq<Turn>, n: nat, a: nat)
    requires spe in w && Within(script, w.Keys) && n <= |script| && a < LS_SIZE
    requires forall i :: 0 <= i < n ==> Spares(script[i], a)
    ensures AfterTurns(c, spe, w, script, n)[spe].mem[a] == w[spe].mem[a]
    decreases n
  {
    hide AfterTurn;
    if n > 0 {
      TurnsSpare(c, spe, w, script, n - 1, a);
      TurnSpares(c, spe, AfterTurns(c, spe, w, script, n - 1), script[n - 1], a);
    }
  }

  lemma TurnSpares(c: Setting, spe: SpeContext, w: World, t: Turn, a: nat)
    requires spe in w && TurnWithin(t, w.Keys) && a < LS_SIZE && Spares(t, a)
    ensures AfterTurn(c, spe, w, t)[spe].mem[a] == w[spe].mem[a]
  {
    hide AllPut, AfterActs, Put;
    PutsSpare(w, spe, t.stores, |t.stores|, a);
    var v := Remembered(AllPut(w, spe, t.stores, |t.stores|), spe, t.kernel.npc);
    ActsSpare(spe, v, t.callback.acts, |t.callback.acts|, a);
  }

  lemma {:induction false} PutsSpare(w: World, spe: SpeContext, ss: seq<Store>, n: nat, a: nat)
    requires spe in w && n <= |ss| && a < LS_SIZE && forall j :: 0 <= j < |ss| ==> Clear(ss[j], a)
    ensures AllPut(w, spe, ss, n)[spe].mem[a] == w[spe].mem[a]
  {
    hide Stored;
    if n > 0 {
      PutsSpare(w, spe, ss, n - 1, a);
      StoreSpares(AllPut(w, spe, ss, n - 1)[spe].mem, ss[n - 1], a);
    }
  }

  lemma {:induction false} ActsSpare(spe: SpeContext, w: World, acts: seq<Act>, k: nat, a: nat)
    requires spe in w && ActsWithin(acts, w.Keys) && k <= |acts| && a < LS_SIZE
    requires forall j :: 0 <= j < |acts| ==> acts[j].Stores? && Clear(acts[j].store, a)
    ensures AfterActs(spe, w, acts, k)[spe].mem[a] == w[spe].mem[a]
  {
    hide Stored;
    if k > 0 {
      ActsSpare(spe, w, acts, k - 1, a);
      StoreSpares(AfterActs(spe, w, acts, k - 1)[spe].mem, acts[k - 1].store, a);
    }
  }

  lemma StoreSpares(m: Memory, s: Store, a: nat)
    requires a < LS_SIZE && Clear(s, a)
    ensures Stored(m, s)[a] == m[a]
  {}
}
