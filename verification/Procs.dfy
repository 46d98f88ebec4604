/** Totals per process, from tools/spu-tools/src/proc-info.c: get_procs collects the SPE
    contexts of each process into one entry of a table that is kept between calls. */
module Procs {

  type U64 = x: nat | x < 0x1_0000_0000_0000_0000

  const TIME_MAX: nat := 7
  type Times = t: seq<U64> | |t| == TIME_MAX witness [0, 0, 0, 0, 0, 0, 0]

  /** The integer counters a context and a process have in common. */
  datatype Counters = Counters(
    time: Times,
    voluntaryCtxSwitches: U64,
    involuntaryCtxSwitches: U64,
    slbMisses: U64,
    hashFaults: U64,
    minorPageFaults: U64,
    majorPageFaults: U64,
    class2Interrupts: U64,
    ppeLibrary: U64)

  /** Addition modulo 2^64. */
  function Add64(a: U64, b: U64): U64 {
    if a + b < 0x1_0000_0000_0000_0000 then a + b else a + b - 0x1_0000_0000_0000_0000
  }

  function AddTimes(a: Times, b: Times): Times {
    seq(TIME_MAX, i requires 0 <= i < TIME_MAX => Add64(a[i], b[i]))
  }

  function Add(a: Counters, b: Counters): Counters {
    Counters(AddTimes(a.time, b.time),
             Add64(a.voluntaryCtxSwitches, b.voluntaryCtxSwitches),
             Add64(a.involuntaryCtxSwitches, b.involuntaryCtxSwitches),
             Add64(a.slbMisses, b.slbMisses),
             Add64(a.hashFaults, b.hashFaults),
             Add64(a.minorPageFaults, b.minorPageFaults),
             Add64(a.majorPageFaults, b.majorPageFaults),
             Add64(a.class2Interrupts, b.class2Interrupts),
             Add64(a.ppeLibrary, b.ppeLibrary))
  }

  const ZERO: Counters := Counters([0, 0, 0, 0, 0, 0, 0], 0, 0, 0, 0, 0, 0, 0, 0)

  lemma AddLaws64(a: U64, b: U64, c: U64)
    ensures Add64(a, 0) == a && Add64(a, b) == Add64(b, a)
    ensures Add64(Add64(a, b), c) == Add64(a, Add64(b, c))
  {}

  lemma AddLaws(a: Counters, b: Counters, c: Counters)
    ensures Add(a, ZERO) == a && Add(a, b) == Add(b, a) && Add(Add(a, b), c) == Add(a, Add(b, c))
  {
    hide Add64, AddTimes;
    TimesLaws(a.time, b.time, c.time);
    AddLaws64(a.voluntaryCtxSwitches, b.voluntaryCtxSwitches, c.voluntaryCtxSwitches);
    AddLaws64(a.involuntaryCtxSwitches, b.involuntaryCtxSwitches, c.involuntaryCtxSwitches);
    AddLaws64(a.slbMisses, b.slbMisses, c.slbMisses);
    AddLaws64(a.hashFaults, b.hashFaults, c.hashFaults);
    AddLaws64(a.minorPageFaults, b.minorPageFaults, c.minorPageFaults);
    AddLaws64(a.majorPageFaults, b.majorPageFaults, c.majorPageFaults);
    AddLaws64(a.class2Interrupts, b.class2Interrupts, c.class2Interrupts);
    AddLaws64(a.ppeLibrary, b.ppeLibrary, c.ppeLibrary);
  }

  lemma TimesLaws(a: Times, b: Times, c: Times)
    ensures AddTimes(a, ZERO.time) == a && AddTimes(a, b) == AddTimes(b, a)
    ensures AddTimes(AddTimes(a, b), c) == AddTimes(a, AddTimes(b, c))
  {
    hide Add64;
    forall i | 0 <= i < TIME_MAX
      ensures AddTimes(a, ZERO.time)[i] == a[i] && AddTimes(a, b)[i] == AddTimes(b, a)[i]
      ensures AddTimes(AddTimes(a, b), c)[i] == AddTimes(a, AddTimes(b, c))[i]
    {
      AddLaws64(a[i], b[i], c[i]);
    }
  }

  // ---------- what the totals ought to be ----------

  datatype CtxData = CtxData(ppuPid: int, user: string, binaryName: string, counters: Counters)
  datatype ProcData = ProcData(ppuPid: int, user: string, binaryName: string, counters: Counters, nThreads: nat)

  /** The sum over all contexts. */
  function Sum(ds: seq<CtxData>): Counters {
    if |ds| == 0 then ZERO else Add(Sum(ds[..|ds| - 1]), ds[|ds| - 1].counters)
  }

  /** The sum and the number of the contexts of one process. */
  function SumOf(ds: seq<CtxData>, pid: int): Counters {
    if |ds| == 0 then ZERO
    else if ds[|ds| - 1].ppuPid == pid then Add(SumOf(ds[..|ds| - 1], pid), ds[|ds| - 1].counters)
    else SumOf(ds[..|ds| - 1], pid)
  }

  function CountOf(ds: seq<CtxData>, pid: int): nat {
    if |ds| == 0 then 0 else CountOf(ds[..|ds| - 1], pid) + if ds[|ds| - 1].ppuPid == pid then 1 else 0
  }

  predicate Occurs(ds: seq<CtxData>, pid: int) { exists k :: 0 <= k < |ds| && ds[k].ppuPid == pid }

  /** Context k is the first of its process. */
  predicate First(ds: seq<CtxData>, k: nat) { k < |ds| && !Occurs(ds[..k], ds[k].ppuPid) }

  /** An entry has the sums of its process and the names of its first context. */
  predicate Totals(p: ProcData, ds: seq<CtxData>) {
    && p.counters == SumOf(ds, p.ppuPid) && p.nThreads == CountOf(ds, p.ppuPid)
    && exists k :: 0 <= k < |ds| && NamedAfter(p, ds, k)
  }

  predicate NamedAfter(p: ProcData, ds: seq<CtxData>, k: nat) {
    First(ds, k) && p.ppuPid == ds[k].ppuPid && p.user == ds[k].user && p.binaryName == ds[k].binaryName
  }

  predicate Distinct(ps: seq<ProcData>) {
    forall a, b :: 0 <= a < |ps| && 0 <= b < |ps| && a != b ==> ps[a].ppuPid != ps[b].ppuPid
  }

  predicate Listed(ps: seq<ProcData>, pid: int) { exists a :: 0 <= a < |ps| && ps[a].ppuPid == pid }

  /** Exactly one entry for each process there is, with its totals. */
  predicate Aggregates(ps: seq<ProcData>, ds: seq<CtxData>) {
    && Distinct(ps)
    && (forall a :: 0 <= a < |ps| ==> Totals(ps[a], ds))
    && (forall k :: 0 <= k < |ds| ==> Listed(ps, ds[k].ppuPid))
  }

  // ---------- conservation ----------

  function SumProcs(ps: seq<ProcData>): Counters {
    if |ps| == 0 then ZERO else Add(SumProcs(ps[..|ps| - 1]), ps[|ps| - 1].counters)
  }

  function Threads(ps: seq<ProcData>): nat {
    if |ps| == 0 then 0 else Threads(ps[..|ps| - 1]) + ps[|ps| - 1].nThreads
  }

  /** The sums of the processes listed, computed from the contexts. */
  function SumListed(pids: seq<int>, ds: seq<CtxData>): Counters {
    if |pids| == 0 then ZERO else Add(SumListed(pids[..|pids| - 1], ds), SumOf(ds, pids[|pids| - 1]))
  }

  function CountListed(pids: seq<int>, ds: seq<CtxData>): nat {
    if |pids| == 0 then 0 else CountListed(pids[..|pids| - 1], ds) + CountOf(ds, pids[|pids| - 1])
  }

  predicate NoRepeats(pids: seq<int>) { forall a, b :: 0 <= a < b < |pids| ==> pids[a] != pids[b] }

  /** One context more adds to the sums exactly once, if its process is listed. */
  lemma {:induction false} OneMore(pids: seq<int>, ds: seq<CtxData>, d: CtxData)
    requires NoRepeats(pids)
    ensures SumListed(pids, ds + [d]) ==
      if d.ppuPid in pids then Add(SumListed(pids, ds), d.counters) else SumListed(pids, ds)
    ensures CountListed(pids, ds + [d]) == CountListed(pids, ds) + if d.ppuPid in pids then 1 else 0
  {
    hide Add;
    assert (ds + [d])[..|ds|] == ds;
    if |pids| > 0 {
      var init, last := pids[..|pids| - 1], pids[|pids| - 1];
      assert pids == init + [last];
      OneMore(init, ds, d);
      AddLaws(SumListed(init, ds), d.counters, SumOf(ds, last));
      AddLaws(SumListed(init, ds), SumOf(ds, last), d.counters);
      AddLaws(d.counters, SumOf(ds, last), ZERO);
    }
  }

  lemma {:induction false} AllListed(pids: seq<int>, ds: seq<CtxData>)
    requires NoRepeats(pids) && forall k :: 0 <= k < |ds| ==> ds[k].ppuPid in pids
    ensures SumListed(pids, ds) == Sum(ds) && CountListed(pids, ds) == |ds|
  {
    hide Add;
    if |ds| == 0 {
      NoneListed(pids);
    } else {
      var init := ds[..|ds| - 1];
      AllListed(pids, init);
      OneMore(pids, init, ds[|ds| - 1]);
      assert ds == init + [ds[|ds| - 1]];
    }
  }

  lemma {:induction false} NoneListed(pids: seq<int>)
    ensures SumListed(pids, []) == ZERO && CountListed(pids, []) == 0
  {
    hide Add;
    if |pids| > 0 {
      NoneListed(pids[..|pids| - 1]);
      AddLaws(ZERO, ZERO, ZERO);
    }
  }

  function Pids(ps: seq<ProcData>): (r: seq<int>)
    ensures |r| == |ps| && forall a :: 0 <= a < |ps| ==> r[a] == ps[a].ppuPid
  {
    seq(|ps|, i requires 0 <= i < |ps| => ps[i].ppuPid)
  }

  lemma {:induction false} SumsAgree(ps: seq<ProcData>, ds: seq<CtxData>)
    requires forall a :: 0 <= a < |ps| ==> Totals(ps[a], ds)
    ensures SumProcs(ps) == SumListed(Pids(ps), ds) && Threads(ps) == CountListed(Pids(ps), ds)
  {
    hide Add, NamedAfter;
    if |ps| > 0 {
      var init := ps[..|ps| - 1];
      SumsAgree(init, ds);
      assert Pids(ps)[..|ps| - 1] == Pids(init);
      assert Totals(ps[|ps| - 1], ds);
    }
  }

  // ---------- the same in plain numbers ----------

  const MODULUS: nat := 0x1_0000_0000_0000_0000

  /** The counters by number: the times first. */
  const COUNTERS: nat := 15
  function Pick(c: Counters, i: nat): (n: nat)
    requires i < COUNTERS
  {
    if i < 7 then c.time[i]
    else match i
      case 7 => c.voluntaryCtxSwitches
      case 8 => c.involuntaryCtxSwitches
      case 9 => c.slbMisses
      case 10 => c.hashFaults
      case 11 => c.minorPageFaults
      case 12 => c.majorPageFaults
      case 13 => c.class2Interrupts
      case _ => c.ppeLibrary
  }

  /** The plain sum of a counter over the contexts of one process, over all contexts, and
      over some entries. */
  function PlainOf(ds: seq<CtxData>, pid: int, i: nat): nat
    requires i < COUNTERS
  {
    if |ds| == 0 then 0
    else
      var last := ds[|ds| - 1];
      PlainOf(ds[..|ds| - 1], pid, i) + if last.ppuPid == pid then Pick(last.counters, i) else 0
  }

  function PlainAll(ds: seq<CtxData>, i: nat): nat
    requires i < COUNTERS
  {
    if |ds| == 0 then 0 else PlainAll(ds[..|ds| - 1], i) + Pick(ds[|ds| - 1].counters, i)
  }

  function PlainProcs(ps: seq<ProcData>, i: nat): nat
    requires i < COUNTERS
  {
    if |ps| == 0 then 0 else PlainProcs(ps[..|ps| - 1], i) + Pick(ps[|ps| - 1].counters, i)
  }

  lemma PickAdd(a: Counters, b: Counters, i: nat)
    requires i < COUNTERS
    ensures Pick(Add(a, b), i) == (Pick(a, i) + Pick(b, i)) % MODULUS
  {
    hide Add64;
    Add64Is(Pick(a, i), Pick(b, i));
  }

  lemma Add64Is(a: U64, b: U64)
    ensures Add64(a, b) == (a + b) % MODULUS
  {}

  lemma ModularSum(x: nat, y: nat)
    ensures (x % MODULUS + y) % MODULUS == (x + y) % MODULUS
  {
    var q := x / MODULUS;
    assert x + y == x % MODULUS + y + MODULUS * q;
    Turns(x % MODULUS + y, q);
  }

  lemma Turns(z: nat, q: nat)
    ensures (z + MODULUS * q) % MODULUS == z % MODULUS
  {
    var d := z / MODULUS;
    assert z + MODULUS * q == MODULUS * (d + q) + z % MODULUS;
  }

  lemma {:induction false} SumOfIs(ds: seq<CtxData>, pid: int, i: nat)
    requires i < COUNTERS
    ensures Pick(SumOf(ds, pid), i) == PlainOf(ds, pid, i) % MODULUS
  {
    hide Add, Pick;
    if |ds| == 0 {
      PickZero(i);
    } else {
      var init, last := ds[..|ds| - 1], ds[|ds| - 1];
      SumOfIs(init, pid, i);
      PickAdd(SumOf(init, pid), last.counters, i);
      ModularSum(PlainOf(init, pid, i), Pick(last.counters, i));
    }
  }

  lemma PickZero(i: nat)
    requires i < COUNTERS
    ensures Pick(ZERO, i) == 0
  {}

  lemma {:induction false} SumIs(ds: seq<CtxData>, i: nat)
    requires i < COUNTERS
    ensures Pick(Sum(ds), i) == PlainAll(ds, i) % MODULUS
  {
    hide Add, Pick;
    if |ds| == 0 {
      PickZero(i);
    } else {
      var init, last := ds[..|ds| - 1], ds[|ds| - 1];
      SumIs(init, i);
      PickAdd(Sum(init), last.counters, i);
      ModularSum(PlainAll(init, i), Pick(last.counters, i));
    }
  }

  lemma {:induction false} SumProcsIs(ps: seq<ProcData>, i: nat)
    requires i < COUNTERS
    ensures Pick(SumProcs(ps), i) == PlainProcs(ps, i) % MODULUS
  {
    hide Add, Pick;
    if |ps| == 0 {
      PickZero(i);
    } else {
      var init, last := ps[..|ps| - 1], ps[|ps| - 1];
      SumProcsIs(init, i);
      PickAdd(SumProcs(init), last.counters, i);
      ModularSum(PlainProcs(init, i), Pick(last.counters, i));
    }
  }

  /** Every counter of every entry is the plain sum over the contexts of its process, modulo
      2^64: the sum itself, as long as it stays below. */
  ghost predicate CountersAddUp(ps: seq<ProcData>, ds: seq<CtxData>) {
    forall a: nat, i: nat :: a < |ps| && i < COUNTERS ==>
      && Pick(ps[a].counters, i) == PlainOf(ds, ps[a].ppuPid, i) % MODULUS
      && (PlainOf(ds, ps[a].ppuPid, i) < MODULUS ==> Pick(ps[a].counters, i) == PlainOf(ds, ps[a].ppuPid, i))
  }

  lemma TotalsAddUp(ps: seq<ProcData>, ds: seq<CtxData>)
    requires forall a :: 0 <= a < |ps| ==> Totals(ps[a], ds)
    ensures CountersAddUp(ps, ds)
  {
    hide Pick, SumOf, PlainOf;
    forall a: nat, i: nat | a < |ps| && i < COUNTERS
      ensures Pick(ps[a].counters, i) == PlainOf(ds, ps[a].ppuPid, i) % MODULUS
    {
      assert Totals(ps[a], ds);
      SumOfIs(ds, ps[a].ppuPid, i);
    }
  }

  /** Nothing is lost and nothing is counted twice: every counter, summed over the entries in
      plain numbers, is its sum over the contexts modulo 2^64, and the threads are as many
      as the contexts. */
  lemma Conservation(ps: seq<ProcData>, ds: seq<CtxData>)
    requires Aggregates(ps, ds)
    ensures SumProcs(ps) == Sum(ds) && Threads(ps) == |ds|
    ensures forall i: nat :: i < COUNTERS ==> PlainProcs(ps, i) % MODULUS == PlainAll(ds, i) % MODULUS
  {
    SameSums(ps, ds);
    hide Pick, Sum, SumProcs, PlainAll, PlainProcs;
    forall i: nat | i < COUNTERS ensures PlainProcs(ps, i) % MODULUS == PlainAll(ds, i) % MODULUS {
      SumIs(ds, i);
      SumProcsIs(ps, i);
    }
  }

  lemma SameSums(ps: seq<ProcData>, ds: seq<CtxData>)
    requires Aggregates(ps, ds)
    ensures SumProcs(ps) == Sum(ds) && Threads(ps) == |ds|
  {
    hide Add, Totals;
    SumsAgree(ps, ds);
    forall k | 0 <= k < |ds| ensures ds[k].ppuPid in Pids(ps) {
      assert Listed(ps, ds[k].ppuPid);
      var a :| 0 <= a < |ps| && ps[a].ppuPid == ds[k].ppuPid;
      assert Pids(ps)[a] == ds[k].ppuPid;
    }
    AllListed(Pids(ps), ds);
  }

  // ---------- the program ----------

  class Ctx {
    const d: CtxData
    var updated: bool

    constructor (d: CtxData)
      ensures this.d == d
    {
      this.d := d;
    }
  }

  class Proc {
    var d: ProcData

    /** bzero */
    constructor ()
      ensures d == ProcData(0, "", "", ZERO, 0)
    {
      d := ProcData(0, "", "", ZERO, 0);
    }
  }

  /** The first |ds| pointers of the array lead to contexts with these data; a null pointer
      ends it. */
  ghost predicate IsList(ctxs: array<Ctx?>, ds: seq<CtxData>)
    reads ctxs
  {
    && |ds| < ctxs.Length && ctxs[|ds|] == null
    && forall k :: 0 <= k < |ds| ==> ctxs[k] != null && ctxs[k].d == ds[k]
  }

  /** A context is marked when its process is listed. */
  ghost predicate Marked(ctxs: array<Ctx?>, ds: seq<CtxData>, es: seq<ProcData>)
    requires IsList(ctxs, ds)
    reads ctxs, set k | 0 <= k < |ds| :: ctxs[k]
  {
    forall k :: 0 <= k < |ds| ==> (ctxs[k].updated <==> Listed(es, ds[k].ppuPid))
  }

  const DEFAULT_CAPACITY: nat := 32

  class Table {
    var procs: array<Proc?>      // of procs_capacity pointers
    var procsN: nat

    /** The first procsN pointers lead to entries, each of its own. */
    ghost predicate Valid()
      reads this, procs
    {
      && procsN <= procs.Length
      && (forall a :: 0 <= a < procsN ==> procs[a] != null)
      && (forall a, b :: 0 <= a < b < procsN ==> procs[a] != procs[b])
    }

    ghost predicate Holds(es: seq<ProcData>)
      requires Valid() && |es| <= procsN
      reads this, procs, set a | 0 <= a < |es| :: procs[a]
    {
      forall a :: 0 <= a < |es| ==> procs[a].d == es[a]
    }

    constructor ()
      ensures Valid() && procsN == 0 && fresh(procs)
    {
      procs := new Proc?[0];
      procsN := 0;
    }

    /** procs_ensure_capacity */
    method EnsureCapacity(n: nat)
      requires Valid()
      modifies this`procs
      ensures Valid() && n <= procs.Length && procs.Length >= old(procs.Length)
      ensures procs.Length == old(procs.Length) || procs.Length < n + DEFAULT_CAPACITY
      ensures (procs.Length - old(procs.Length)) % DEFAULT_CAPACITY == 0
      ensures procs == old(procs) || fresh(procs)
      ensures forall a :: 0 <= a < old(procs.Length) ==> procs[a] == old(procs[a])
    {
      while procs.Length < n
        invariant Valid() && procs.Length >= old(procs.Length)
        invariant procs.Length == old(procs.Length) || procs.Length < n + DEFAULT_CAPACITY
        invariant (procs.Length - old(procs.Length)) % DEFAULT_CAPACITY == 0
        invariant procs == old(procs) || fresh(procs)
        invariant forall a :: 0 <= a < old(procs.Length) ==> procs[a] == old(procs[a])
        decreases n - procs.Length
      {
        var ret := new Proc?[procs.Length + DEFAULT_CAPACITY];
        forall a | 0 <= a < procs.Length { ret[a] := procs[a]; }
        procs := ret;
      }
    }

    /** Lines 182-203: the contexts of one process, from its first on */
    method Collect(p: Proc, ctxs: array<Ctx?>, i: nat, ghost ds: seq<CtxData>, ghost es: seq<ProcData>)
      requires IsList(ctxs, ds) && First(ds, i) && NamedAfter(p.d, ds, i)
      requires p.d.counters == ZERO && p.d.nThreads == 0
      requires Marked(ctxs, ds, es) && !Listed(es, ds[i].ppuPid)
      modifies p, set k | 0 <= k < |ds| :: ctxs[k]
      ensures Totals(p.d, ds) && p.d.ppuPid == ds[i].ppuPid
      ensures Marked(ctxs, ds, es + [p.d])
    {
      hide Add, Occurs, Listed, NamedAfter, Totals, SumOf, CountOf;
      ghost var pid := ds[i].ppuPid;
      NotYet(ds[..i], pid);
      var j := i;
      while ctxs[j] != null
        invariant i <= j <= |ds|
        invariant p.d == old(p.d).(counters := p.d.counters, nThreads := p.d.nThreads)
        invariant p.d.counters == SumOf(ds[..j], pid) && p.d.nThreads == CountOf(ds[..j], pid)
        invariant forall k :: 0 <= k < |ds| && ds[k].ppuPid != pid ==> (ctxs[k].updated <==> Listed(es, ds[k].ppuPid))
        invariant forall k :: i <= k < j && ds[k].ppuPid == pid ==> ctxs[k].updated
        decreases |ds| - j
      {
        SumStep(ds, j, pid);
        if ctxs[i].d.ppuPid == ctxs[j].d.ppuPid {
          p.d := p.d.(counters := Add(p.d.counters, ctxs[j].d.counters), nThreads := p.d.nThreads + 1);
          ctxs[j].updated := true;
        }
        j := j + 1;
      }
      assert ds[..j] == ds;
      ListedMore(es, p.d);
      BeforeFirst(ds, i);
      SameName(old(p.d), p.d, ds, i);
    }

    /** Lines 172-176 */
    method Claim(procIdx: nat, ghost es: seq<ProcData>)
      requires Valid() && |es| == procIdx <= procsN && Holds(es)
      modifies this, procs
      ensures Valid() && procIdx < procsN && Holds(es)
      ensures procsN == (if old(procsN) > procIdx then old(procsN) else procIdx + 1)
      ensures procs == old(procs) || fresh(procs)
      ensures forall a :: 0 <= a < procsN ==> fresh(procs[a]) || (a < old(procsN) && procs[a] == old(procs[a]))
    {
      EnsureCapacity(procIdx + 1);
      if procIdx >= procsN {
        procs[procIdx] := new Proc();
        procsN := procIdx + 1;
      }
    }

    /** Lines 172-204: the entry for the process of context i, in a table that may have to
        grow */
    method AddProcess(ctxs: array<Ctx?>, i: nat, procIdx: nat, ghost ds: seq<CtxData>, ghost es: seq<ProcData>)
      returns (ghost e: ProcData)
      requires Valid() && IsList(ctxs, ds) && i < |ds| && |es| == procIdx <= procsN && Holds(es)
      requires First(ds, i) && Marked(ctxs, ds, es) && !Listed(es, ds[i].ppuPid)
      modifies this, procs, set a | 0 <= a < procsN :: procs[a], set k | 0 <= k < |ds| :: ctxs[k]
      ensures Valid() && |es| + 1 <= procsN && Holds(es + [e])
      ensures procsN == (if old(procsN) > |es| then old(procsN) else |es| + 1)
      ensures procs == old(procs) || fresh(procs)
      ensures forall a :: 0 <= a < procsN ==> fresh(procs[a]) || (a < old(procsN) && procs[a] == old(procs[a]))
      ensures Totals(e, ds) && e.ppuPid == ds[i].ppuPid && Marked(ctxs, ds, es + [e])
    {
      hide Add, Occurs, Totals, First, NamedAfter, Listed;
      Claim(procIdx, es);
      var p := procs[procIdx];
      p.d := ProcData(ctxs[i].d.ppuPid, ctxs[i].d.user, ctxs[i].d.binaryName, ZERO, 0);
      NamedFirst(p.d, ds, i);
      Collect(p, ctxs, i, ds, es);
      e := p.d;
    }

    /** get_procs.  The comparison of the sort is not modelled: `swaps` is any way to
        rearrange the entries. */
    method GetProcs(ctxs: array?<Ctx?>, swaps: seq<(nat, nat)>, ghost ds: seq<CtxData>)
      returns (r: array?<Proc?>, ghost es: seq<ProcData>)
      requires Valid() && (ctxs != null ==> IsList(ctxs, ds))
      modifies this, procs, set a | 0 <= a < procsN :: procs[a]
      modifies if ctxs == null then {} else set k | 0 <= k < |ds| :: ctxs[k]
      ensures Valid()
      ensures ctxs == null ==> r == null && procs == old(procs) && procsN == old(procsN)
      ensures ctxs != null ==>
        && r == procs && procsN == |es| < procs.Length && procs[procsN] == null
        && Holds(es) && Aggregates(es, ds) && CountersAddUp(es, ds)
    {
      hide Add, Occurs, Totals, First, NamedAfter, Listed, Aggregates, Distinct, CountersAddUp;
      r, es := null, [];
      if ctxs == null { return; }
      Unmark(ctxs, ds);
      var procIdx;
      procIdx, es := Scan(ctxs, ds);
      Trim(procIdx, es);
      es := Sort(swaps, es, ds);
      EntriesAddUp(es, ds);
      r := procs;
    }

    /** Lines 165-166 */
    method Unmark(ctxs: array<Ctx?>, ghost ds: seq<CtxData>)
      requires IsList(ctxs, ds)
      modifies set k | 0 <= k < |ds| :: ctxs[k]
      ensures Marked(ctxs, ds, [])
    {
      var i := 0;
      while ctxs[i] != null
        invariant 0 <= i <= |ds| && forall k :: 0 <= k < i ==> !ctxs[k].updated
        decreases |ds| - i
      {
        ctxs[i].updated := false;
        i := i + 1;
      }
    }

    /** Lines 168-205 */
    method Scan(ctxs: array<Ctx?>, ghost ds: seq<CtxData>) returns (procIdx: nat, ghost es: seq<ProcData>)
      requires Valid() && IsList(ctxs, ds) && Marked(ctxs, ds, [])
      modifies this, procs, set a | 0 <= a < procsN :: procs[a], set k | 0 <= k < |ds| :: ctxs[k]
      ensures Valid() && |es| == procIdx <= procsN && Holds(es) && Aggregates(es, ds)
      ensures procs == old(procs) || fresh(procs)
    {
      hide Add, Occurs, Totals, First, NamedAfter, Listed, Marked, Distinct;
      es := [];
      NoneYet();
      var i := 0;
      procIdx := 0;
      while ctxs[i] != null
        invariant 0 <= i <= |ds| && |es| == procIdx <= procsN
        invariant Valid() && Holds(es) && Marked(ctxs, ds, es)
        invariant procs == old(procs) || fresh(procs)
        invariant forall a :: 0 <= a < procsN ==> fresh(procs[a]) || (a < old(procsN) && procs[a] == old(procs[a]))
        invariant Distinct(es) && forall a :: 0 <= a < |es| ==> Totals(es[a], ds)
        invariant forall k :: 0 <= k < i ==> Listed(es, ds[k].ppuPid)
        decreases |ds| - i
      {
        MarkedAt(ctxs, ds, es, i);
        if !ctxs[i].updated {
          IsFirst(ds, es, i);
          ghost var e := AddProcess(ctxs, i, procIdx, ds, es);
          ListedMore(es, e);
          DistinctMore(es, e);
          es := es + [e];
          procIdx := procIdx + 1;
        }
        i := i + 1;
      }
    }

    /** Lines 207-215; the entries freed are those no longer needed */
    method Trim(procIdx: nat, ghost es: seq<ProcData>)
      requires Valid() && |es| == procIdx <= procsN && Holds(es)
      modifies this, procs
      ensures Valid() && procsN == procIdx < procs.Length && procs[procsN] == null && Holds(es)
      ensures procs == old(procs) || fresh(procs)
    {
      var oldProcsN := procsN;
      var i := procIdx;
      while i < oldProcsN
        invariant procIdx <= i <= oldProcsN && procsN == oldProcsN - (i - procIdx) && procsN >= procIdx
        invariant procs == old(procs) && oldProcsN <= procs.Length
        invariant forall a :: 0 <= a < procIdx || i <= a < oldProcsN ==> procs[a] == old(procs[a])
      {
        procs[i] := null;
        procsN := procsN - 1;
        i := i + 1;
      }
      EnsureCapacity(procIdx + 1);
      procs[procIdx] := null;
    }

    method Swap(a: nat, b: nat, ghost es: seq<ProcData>) returns (ghost swapped: seq<ProcData>)
      requires Valid() && |es| == procsN && Holds(es) && a < procsN && b < procsN && a != b
      modifies procs
      ensures Valid() && swapped == es[a := es[b]][b := es[a]] && Holds(swapped)
      ensures forall x :: procsN <= x < procs.Length ==> procs[x] == old(procs[x])
    {
      procs[a], procs[b] := procs[b], procs[a];
      swapped := es[a := es[b]][b := es[a]];
    }

    method Sort(swaps: seq<(nat, nat)>, ghost es: seq<ProcData>, ghost ds: seq<CtxData>)
      returns (ghost sorted: seq<ProcData>)
      requires Valid() && |es| == procsN && Holds(es) && Aggregates(es, ds)
      modifies procs
      ensures Valid() && |sorted| == procsN && Holds(sorted) && Aggregates(sorted, ds)
      ensures multiset(sorted) == multiset(es)
      ensures forall a :: procsN <= a < procs.Length ==> procs[a] == old(procs[a])
    {
      hide Aggregates;
      sorted := es;
      var i := 0;
      while i < |swaps|
        invariant Valid() && |sorted| == procsN && Holds(sorted) && Aggregates(sorted, ds)
        invariant multiset(sorted) == multiset(es)
        invariant forall a :: procsN <= a < procs.Length ==> procs[a] == old(procs[a])
      {
        var (a, b) := swaps[i];
        if a < procsN && b < procsN && a != b {
          SwapKeeps(sorted, a, b, ds);
          sorted := Swap(a, b, sorted);
        }
        i := i + 1;
      }
    }
  }

  lemma EntriesAddUp(es: seq<ProcData>, ds: seq<CtxData>)
    requires Aggregates(es, ds)
    ensures CountersAddUp(es, ds)
  {
    TotalsAddUp(es, ds);
  }

  lemma NoneYet()
    ensures Distinct([])
  {}

  lemma MarkedAt(ctxs: array<Ctx?>, ds: seq<CtxData>, es: seq<ProcData>, k: nat)
    requires IsList(ctxs, ds) && Marked(ctxs, ds, es) && k < |ds|
    ensures ctxs[k].updated <==> Listed(es, ds[k].ppuPid)
  {}

  lemma IsFirst(ds: seq<CtxData>, es: seq<ProcData>, i: nat)
    requires i < |ds| && !Listed(es, ds[i].ppuPid)
    requires forall k :: 0 <= k < i ==> Listed(es, ds[k].ppuPid)
    ensures First(ds, i)
  {
    forall k | 0 <= k < |ds[..i]| ensures ds[..i][k].ppuPid != ds[i].ppuPid {
      assert Listed(es, ds[k].ppuPid);
    }
  }

  lemma DistinctMore(es: seq<ProcData>, e: ProcData)
    requires Distinct(es) && !Listed(es, e.ppuPid)
    ensures Distinct(es + [e])
  {
    forall a | 0 <= a < |es| ensures es[a].ppuPid != e.ppuPid {}
  }

  lemma SwapKeeps(es: seq<ProcData>, a: nat, b: nat, ds: seq<CtxData>)
    requires Aggregates(es, ds) && a < |es| && b < |es| && a != b
    ensures Aggregates(es[a := es[b]][b := es[a]], ds)
    ensures multiset(es[a := es[b]][b := es[a]]) == multiset(es)
  {
    hide Totals;
    var s := es[a := es[b]][b := es[a]];
    forall k | 0 <= k < |ds| ensures Listed(s, ds[k].ppuPid) {
      assert Listed(es, ds[k].ppuPid);
      var x :| 0 <= x < |es| && es[x].ppuPid == ds[k].ppuPid;
      var y := if x == a then b else if x == b then a else x;
      assert s[y] == es[x];
    }
  }

  lemma SameName(was: ProcData, p: ProcData, ds: seq<CtxData>, i: nat)
    requires NamedAfter(was, ds, i) && p == was.(counters := p.counters, nThreads := p.nThreads)
    requires p.counters == SumOf(ds, ds[i].ppuPid) && p.nThreads == CountOf(ds, ds[i].ppuPid)
    ensures Totals(p, ds) && p.ppuPid == ds[i].ppuPid
  {
    assert NamedAfter(p, ds, i);
  }

  lemma SumStep(ds: seq<CtxData>, j: nat, pid: int)
    requires j < |ds|
    ensures SumOf(ds[..j + 1], pid) ==
      if ds[j].ppuPid == pid then Add(SumOf(ds[..j], pid), ds[j].counters) else SumOf(ds[..j], pid)
    ensures CountOf(ds[..j + 1], pid) == CountOf(ds[..j], pid) + if ds[j].ppuPid == pid then 1 else 0
  {
    assert ds[..j + 1][..j] == ds[..j];
  }

  lemma NamedFirst(p: ProcData, ds: seq<CtxData>, i: nat)
    requires First(ds, i) && p.ppuPid == ds[i].ppuPid && p.user == ds[i].user && p.binaryName == ds[i].binaryName
    ensures NamedAfter(p, ds, i)
  {}

  lemma {:induction false} NotYet(ds: seq<CtxData>, pid: int)
    requires !Occurs(ds, pid)
    ensures SumOf(ds, pid) == ZERO && CountOf(ds, pid) == 0
  {
    if |ds| > 0 {
      var init := ds[..|ds| - 1];
      assert forall k :: 0 <= k < |init| ==> init[k] == ds[k];
      NotYet(init, pid);
    }
  }

  lemma ListedMore(es: seq<ProcData>, e: ProcData)
    ensures forall pid :: Listed(es + [e], pid) <==> Listed(es, pid) || pid == e.ppuPid
  {
    assert (es + [e])[|es|] == e;
    forall pid | Listed(es, pid) ensures Listed(es + [e], pid) {
      var a :| 0 <= a < |es| && es[a].ppuPid == pid;
      assert (es + [e])[a].ppuPid == pid;
    }
  }

  lemma BeforeFirst(ds: seq<CtxData>, i: nat)
    requires First(ds, i)
    ensures forall k :: 0 <= k < i ==> ds[k].ppuPid != ds[i].ppuPid
  {
    forall k | 0 <= k < i ensures ds[k].ppuPid != ds[i].ppuPid {
      assert ds[..i][k] == ds[k];
    }
  }
}
