/** Descriptors and mappings of an SPE context, from spebase/create.c: what creation takes
    from the kernel, what the cached descriptors of the spufs files add, and what
    destruction gives back. */
module Contexts {
  import opened Common

  // ---------- the process as the kernel sees it ----------

  datatype Region = Region(base: nat, size: nat)

  /** An address, or MAP_FAILED. */
  datatype Map = MapFailed | Mapped(base: nat)

  datatype Errno = ENOTSUP | EEXIST | EINVAL | EBUSY | ENODEV | EPERM | EFAULT | ENOMEM | OtherError(code: int)

  /** What openat or spu_create answers: the next number, if there is one that is not in use;
      and mmap likewise. */
  function NextOpen(opens: seq<int>, fds: multiset<int>): (fd: int)
    ensures fd == -1 || (fd >= 0 && fd !in fds)
  {
    if |opens| > 0 && opens[0] >= 0 && opens[0] !in fds then opens[0] else -1
  }

  function NextMap(mmaps: seq<Map>): Map {
    if |mmaps| > 0 then mmaps[0] else MapFailed
  }

  function Rest<T>(s: seq<T>): seq<T> {
    if |s| > 0 then s[1..] else s
  }

  /** Open descriptors and live mappings of the process.  What the system calls answer is a
      script; closing and unmapping are only allowed for what is open and mapped. */
  class Kernel {
    var fds: multiset<int>
    var regions: multiset<Region>
    var opens: seq<int>
    var mmaps: seq<Map>

    ghost predicate Valid()
      reads `fds
    {
      forall f :: f in fds ==> f >= 0 && fds[f] == 1
    }

    /** A process with nothing open. */
    constructor (opens: seq<int>, mmaps: seq<Map>)
      ensures Valid() && fds == multiset{} && regions == multiset{} && this.opens == opens && this.mmaps == mmaps
    {
      fds, regions, this.opens, this.mmaps := multiset{}, multiset{}, opens, mmaps;
    }

    ghost function Left(): Script
      reads `opens, `mmaps
    {
      Script(opens, mmaps)
    }

    /** openat and spu_create: a descriptor not in use, or -1 */
    method Open() returns (fd: int)
      requires Valid()
      modifies this
      ensures Valid() && regions == old(regions)
      ensures fd == NextOpen(old(opens), old(fds)) && fd !in old(fds) && fds == old(fds) + One(fd)
      ensures opens == Rest(old(opens)) && mmaps == old(mmaps)
    {
      fd := NextOpen(opens, fds);
      opens := Rest(opens);
      if fd >= 0 { fds := fds + multiset{fd}; }
    }

    method Close(fd: int)
      requires Valid() && fd in fds
      modifies this
      ensures Valid() && regions == old(regions) && fds == old(fds) - multiset{fd}
      ensures opens == old(opens) && mmaps == old(mmaps)
    {
      fds := fds - multiset{fd};
    }

    method Mmap(size: nat) returns (m: Map)
      requires Valid()
      modifies this
      ensures Valid() && fds == old(fds) && regions == old(regions) + Owned(m, size)
      ensures m == NextMap(old(mmaps)) && mmaps == Rest(old(mmaps)) && opens == old(opens)
    {
      m := NextMap(mmaps);
      mmaps := Rest(mmaps);
      if m.Mapped? { regions := regions + multiset{Region(m.base, size)}; }
    }

    method Munmap(base: nat, size: nat)
      requires Valid() && Region(base, size) in regions
      modifies this
      ensures Valid() && fds == old(fds) && regions == old(regions) - multiset{Region(base, size)}
    {
      regions := regions - multiset{Region(base, size)};
    }
  }

  function Plus<T(==)>(a: multiset<T>, b: multiset<T>): multiset<T> { a + b }

  function Minus<T(==)>(a: multiset<T>, b: multiset<T>): multiset<T> { a - b }

  predicate Within<T(==)>(a: multiset<T>, b: multiset<T>) { a <= b }

  /** What is left of the answers. */
  datatype Script = Script(opens: seq<int>, mmaps: seq<Map>)

  /** mapfileat asks for a descriptor and, if it gets one, for a mapping. */
  function FileMapped(s: Script, fds: multiset<int>): (Map, Script) {
    var s1 := s.(opens := Rest(s.opens));
    if NextOpen(s.opens, fds) < 0 then (MapFailed, s1) else (NextMap(s.mmaps), s1.(mmaps := Rest(s.mmaps)))
  }

  /** The problem state, in one piece or in five of which mssync may be missing. */
  function ProblemStateMapped(s: Script, fds: multiset<int>): (bool, Script) {
    var (psmap, s1) := FileMapped(s, fds);
    if psmap.Mapped? then (true, s1)
    else
      var (mfc, s2) := FileMapped(s1, fds);
      var (mssync, s3) := FileMapped(s2, fds);
      var (cntl, s4) := FileMapped(s3, fds);
      var (signal1, s5) := FileMapped(s4, fds);
      var (signal2, s6) := FileMapped(s5, fds);
      (mfc.Mapped? && cntl.Mapped? && signal1.Mapped? && signal2.Mapped?, s6)
  }

  /** Five mappings one after the other. */
  ghost predicate FiveMapped(s: Script, fds: multiset<int>, ms: seq<Map>, s': Script) {
    |ms| == 5 &&
    var (mfc, s1) := FileMapped(s, fds);
    var (mssync, s2) := FileMapped(s1, fds);
    var (cntl, s3) := FileMapped(s2, fds);
    var (signal1, s4) := FileMapped(s3, fds);
    var (signal2, s5) := FileMapped(s4, fds);
    ms == [mfc, mssync, cntl, signal1, signal2] && s' == s5
  }

  lemma InFivePieces(s: Script, m: Script, fds: multiset<int>, ms: seq<Map>, s': Script)
    requires FileMapped(s, fds) == (MapFailed, m) && FiveMapped(m, fds, ms, s')
    ensures ProblemStateMapped(s, fds) == (ms[0].Mapped? && ms[2].Mapped? && ms[3].Mapped? && ms[4].Mapped?, s')
  {
    hide FileMapped;
  }

  lemma InOneMapping(s: Script, fds: multiset<int>, m: Map, s': Script)
    requires FileMapped(s, fds) == (m, s') && m.Mapped?
    ensures ProblemStateMapped(s, fds) == (true, s')
  {}

  /** Why a context could not be created. */
  datatype Stage = NoLoader | NoMemory | Directory | Mapping | SignalType | Created

  /** How far the creation gets with the answers of a script. */
  function StageOf(flags: Flags, s: Script, fds: multiset<int>): (Stage, Script) {
    var dir, s0 := NextOpen(s.opens, fds), s.(opens := Rest(s.opens));
    if dir < 0 then (Directory, s0)
    else
      var all := Plus(fds, One(dir));
      var (mem, s1) := FileMapped(s0, all);
      if mem.MapFailed? then (Mapping, s1)
      else
        var (ok, s2) := if flags.mapPs || flags.isolate then ProblemStateMapped(s1, all) else (true, s1);
        if !ok then (Mapping, s2) else SignalStage(flags, s2, all)
  }

  /** Isolated mode maps the problem state as well. */
  lemma IsolatedMaps(flags: Flags, s: Script, fds: multiset<int>)
    ensures StageOf(flags.(mapPs := flags.mapPs || flags.isolate), s, fds) == StageOf(flags, s, fds)
  {
    hide FileMapped, ProblemStateMapped;
  }

  function SignalStage(flags: Flags, s: Script, fds: multiset<int>): (Stage, Script) {
    var s1 := if flags.sigNotify1Or then s.(opens := Rest(s.opens)) else s;
    if flags.sigNotify1Or && NextOpen(s.opens, fds) < 0 then (SignalType, s1)
    else
      var s2 := if flags.sigNotify2Or then s1.(opens := Rest(s1.opens)) else s1;
      if flags.sigNotify2Or && NextOpen(s1.opens, fds) < 0 then (SignalType, s2) else (Created, s2)
  }

  function Owned(m: Map, size: nat): multiset<Region> {
    if m.Mapped? then multiset{Region(m.base, size)} else multiset{}
  }

  function One(fd: int): multiset<int> { if fd >= 0 then multiset{fd} else multiset{} }

  /** The descriptors among the entries of a cache. */
  function Cached(s: seq<int>): multiset<int> {
    if |s| == 0 then multiset{} else One(s[0]) + Cached(s[1..])
  }

  /** Taking x in leaves the rest as it is. */
  lemma TakenIn(all: multiset<int>, mine: multiset<int>, x: multiset<int>)
    requires mine <= all
    ensures mine + x <= all + x && (all + x) - (mine + x) == all - mine
  {}

  lemma {:induction false} CachedUpdate(s: seq<int>, i: nat, fd: int)
    requires i < |s|
    ensures Cached(s[i := fd]) + One(s[i]) == Cached(s) + One(fd)
  {
    hide One;
    if i > 0 {
      assert s[i := fd][1..] == s[1..][i - 1 := fd];
      CachedUpdate(s[1..], i - 1, fd);
      Regroup(One(s[0]), Cached(s[1..][i - 1 := fd]), One(s[i]), Cached(s[1..]), One(fd));
    } else {
      assert s[i := fd][1..] == s[1..];
    }
  }

  lemma Regroup(h: multiset<int>, a: multiset<int>, x: multiset<int>, b: multiset<int>, y: multiset<int>)
    requires a + x == b + y
    ensures (h + a) + x == (h + b) + y
  {
    assert (h + a) + x == h + (a + x);
  }

  lemma {:induction false} CachedNone(s: seq<int>)
    requires forall i :: 0 <= i < |s| ==> s[i] == -1
    ensures Cached(s) == multiset{}
  {
    if |s| > 0 { CachedNone(s[1..]); }
  }

  // ---------- a context ----------

  const FDS: nat := 12               // NUM_MBOX_FDS
  const PSMAP_SIZE: nat := 0x20000
  const PS_SIZE: nat := 0x1000       // of each area of the problem state
  const MSSYNC_OFFSET: nat := 0x00000
  const MFC_OFFSET: nat := 0x03000
  const CNTL_OFFSET: nat := 0x04000
  const SIGNAL1_OFFSET: nat := 0x14000
  const SIGNAL2_OFFSET: nat := 0x1C000

  datatype Flags = Flags(isolate: bool, isolateEmulate: bool, mapPs: bool, sigNotify1Or: bool, sigNotify2Or: bool)

  class Context {
    const k: Kernel
    var fdSpeDir: int
    var flags: Flags
    var mem: Map
    var psmap: Map
    var mssync: Map
    var mfc: Map
    var cntl: Map
    var signal1: Map
    var signal2: Map
    const fds: array<int>            // spe_fds_array
    const refcount: array<int>       // spe_fds_refcount

    ghost function Descriptors(): multiset<int>
      reads `fdSpeDir, fds
    {
      Cached(fds[..]) + One(fdSpeDir)
    }

    ghost function Areas(): multiset<Region>
      reads `mem, `psmap, `mssync, `mfc, `cntl, `signal1, `signal2
    {
      if psmap.Mapped? then Owned(psmap, PSMAP_SIZE) + Owned(mem, LS_SIZE)
      else
        Owned(mfc, PS_SIZE) + (Owned(mssync, PS_SIZE) + (Owned(cntl, PS_SIZE) +
          (Owned(signal1, PS_SIZE) + (Owned(signal2, PS_SIZE) + Owned(mem, LS_SIZE)))))
    }

    /** What is open and mapped besides what the context holds. */
    ghost function Others(): multiset<int>
      reads `fdSpeDir, fds, k`fds
    {
      Minus(k.fds, Descriptors())
    }

    ghost function OtherRegions(): multiset<Region>
      reads `mem, `psmap, `mssync, `mfc, `cntl, `signal1, `signal2, k`regions
    {
      Minus(k.regions, Areas())
    }

    /** Everything the context holds is open and mapped. */
    ghost predicate Valid()
      reads `fdSpeDir, `mem, `psmap, `mssync, `mfc, `cntl, `signal1, `signal2, fds, refcount, k`fds, k`regions
    {
      && fds.Length == FDS && refcount.Length == FDS && fds != refcount
      && k.Valid() && Within(Descriptors(), k.fds) && Within(Areas(), k.regions)
      && forall i :: 0 <= i < FDS ==> fds[i] >= -1
    }

    /** The counts agree with the cache. */
    ghost predicate Counted()
      reads this, fds, refcount
      requires fds.Length == FDS && refcount.Length == FDS
    {
      forall i :: 0 <= i < FDS ==> refcount[i] >= 0 && (fds[i] != -1 <==> refcount[i] > 0)
    }

    /** Lines 199-231; the memory malloc returns holds `junk` where the counts go. */
    constructor (k: Kernel, junk: seq<int>)
      requires k.Valid() && |junk| == FDS
      ensures this.k == k && Valid() && fresh(fds) && fresh(refcount)
      ensures fds.Length == FDS && refcount.Length == FDS
      ensures Others() == k.fds && OtherRegions() == k.regions
      ensures fdSpeDir == -1 && mem == psmap == mssync == mfc == cntl == signal1 == signal2 == MapFailed
      ensures forall i :: 0 <= i < FDS ==> fds[i] == -1 && refcount[i] == junk[i]
    {
      this.k := k;
      fdSpeDir := -1;
      mem, psmap, mssync, mfc := MapFailed, MapFailed, MapFailed, MapFailed;
      cntl, signal1, signal2 := MapFailed, MapFailed, MapFailed;
      var cache := Entries(seq(FDS, i => -1));
      var counts := Entries(junk);
      fds, refcount := cache, counts;
      new;
      hide Descriptors, Areas, Others, OtherRegions, Valid, Kernel.Valid;
      HoldsNothing();
    }

    lemma HoldsNothing()
      requires fdSpeDir == -1 && mem == psmap == mssync == mfc == cntl == signal1 == signal2 == MapFailed
      requires fds.Length == FDS && refcount.Length == FDS && fds != refcount && k.Valid()
      requires forall i :: 0 <= i < FDS ==> fds[i] == -1
      ensures Valid() && Others() == k.fds && OtherRegions() == k.regions
    {
      hide Cached, Owned;
      CachedNone(fds[..]);
      NothingOwned(PS_SIZE);
      NothingOwned(LS_SIZE);
    }

    /** _base_spe_open_if_closed */
    method OpenIfClosed(i: nat) returns (fd: int)
      requires Valid() && i < FDS
      modifies k, fds, refcount
      ensures Valid() && fd == fds[i] && k.regions == old(k.regions)
      ensures Others() == old(Others()) && OtherRegions() == old(OtherRegions())
      ensures forall j :: 0 <= j < FDS && j != i ==> fds[j] == old(fds[j]) && refcount[j] == old(refcount[j])
      ensures old(fds[i]) != -1 ==> fd == old(fds[i]) && refcount[i] == old(refcount[i]) + 1
      ensures old(fds[i]) == -1 ==>
        fd == NextOpen(old(k.opens), old(k.fds)) && refcount[i] == old(refcount[i]) + (if fd > 0 then 1 else 0)
      ensures k.fds == old(k.fds) + (if old(fds[i]) == -1 then One(fd) else multiset{})
      ensures k.opens == if old(fds[i]) == -1 then Rest(old(k.opens)) else old(k.opens)
      ensures old(Counted()) ==> (Counted() <==> old(fds[i] != -1 || NextOpen(k.opens, k.fds) != 0))
      ensures old(Counted()) && 0 in old(k.fds) ==> Counted()
    {
      hide Cached, One, Descriptors, Areas, Minus, Within;
      if fds[i] != -1 {
        refcount[i] := refcount[i] + 1;
      } else {
        OpenEntry(i);
        if fds[i] > 0 { refcount[i] := refcount[i] + 1; }
      }
      fd := fds[i];
    }

    /** Lines 110-113 */
    method OpenEntry(i: nat)
      requires Valid() && i < FDS && fds[i] == -1
      modifies k, fds
      ensures k.Valid() && k.regions == old(k.regions) && fds[i] == NextOpen(old(k.opens), old(k.fds))
      ensures k.fds == old(k.fds) + One(fds[i]) && k.opens == Rest(old(k.opens))
      ensures Within(Descriptors(), k.fds) && Others() == old(Others())
      ensures forall j :: 0 <= j < FDS && j != i ==> fds[j] == old(fds[j])
    {
      hide Cached, One, Areas;
      ghost var cache := fds[..];
      var fd := k.Open();
      fds[i] := fd;
      assert fds[..] == cache[i := fd];
      Cache(cache, i, fd, One(fdSpeDir), old(k.fds));
    }

    /** _base_spe_close_if_open */
    method CloseIfOpen(i: nat)
      requires Valid() && i < FDS
      modifies k, fds, refcount
      ensures Valid() && k.regions == old(k.regions)
      ensures Others() == old(Others()) && OtherRegions() == old(OtherRegions())
      ensures forall j :: 0 <= j < FDS && j != i ==> fds[j] == old(fds[j]) && refcount[j] == old(refcount[j])
      ensures old(fds[i] != -1 && refcount[i] == 1) ==>
        fds[i] == -1 && refcount[i] == 0 && k.fds == old(k.fds) - One(old(fds[i]))
      ensures !old(fds[i] != -1 && refcount[i] == 1) ==>
        && fds[i] == old(fds[i]) && k.fds == old(k.fds)
        && refcount[i] == old(refcount[i]) - (if old(refcount[i]) > 0 then 1 else 0)
      ensures old(Counted()) ==> Counted()
    {
      hide Cached, One, Descriptors, Areas, Kernel.Valid, Minus, Within;
      if fds[i] != -1 && refcount[i] == 1 {
        refcount[i] := refcount[i] - 1;
        DropEntry(i);
      } else if refcount[i] > 0 {
        refcount[i] := refcount[i] - 1;
      }
    }

    /** Lines 133-135 */
    method DropEntry(i: nat)
      requires Valid() && i < FDS && fds[i] != -1
      modifies k, fds
      ensures k.Valid() && k.regions == old(k.regions) && fds[i] == -1 && k.fds == old(k.fds) - One(old(fds[i]))
      ensures Within(Descriptors(), k.fds) && Others() == old(Others())
      ensures forall j :: 0 <= j < FDS && j != i ==> fds[j] == old(fds[j])
    {
      hide Cached, One, Areas;
      ghost var cache := fds[..];
      Uncache(cache, i, One(fdSpeDir), k.fds);
      k.Close(fds[i]);
      fds[i] := -1;
      assert fds[..] == cache[i := -1];
    }

    /** munmap, if there is something mapped, and the rest stays */
    method Unmap(m: Map, size: nat, ghost rest: multiset<Region>)
      requires k.Valid() && Owned(m, size) + rest <= k.regions
      modifies k
      ensures k.Valid() && k.fds == old(k.fds)
      ensures rest <= k.regions && k.regions - rest == old(k.regions) - (Owned(m, size) + rest)
    {
      if m != MapFailed { k.Munmap(m.base, size); }
    }

    method CloseEntry(fd: int, ghost rest: multiset<int>)
      requires k.Valid() && One(fd) + rest <= k.fds
      modifies k
      ensures k.Valid() && k.regions == old(k.regions)
      ensures rest <= k.fds && k.fds - rest == old(k.fds) - (One(fd) + rest)
    {
      if fd >= 0 { k.Close(fd); }
    }

    /** free_spe_context: everything the context holds goes back, each of it once */
    method Free()
      requires Valid()
      modifies k
      ensures k.Valid() && k.fds == old(Others()) && k.regions == old(OtherRegions())
    {
      FreeAreas();
      FreeDescriptors();
    }

    /** Lines 147-166 */
    method FreeAreas()
      requires k.Valid() && Areas() <= k.regions
      modifies k
      ensures k.Valid() && k.fds == old(k.fds) && k.regions == old(k.regions) - Areas()
    {
      hide Owned;
      NothingMore(k.regions, Areas(), Owned(mem, LS_SIZE));
      if psmap != MapFailed {
        Unmap(psmap, PSMAP_SIZE, Owned(mem, LS_SIZE));
      } else {
        ghost var toSignal2 := Owned(signal2, PS_SIZE) + Owned(mem, LS_SIZE);
        ghost var toSignal1 := Owned(signal1, PS_SIZE) + toSignal2;
        ghost var toCntl := Owned(cntl, PS_SIZE) + toSignal1;
        Unmap(mfc, PS_SIZE, Owned(mssync, PS_SIZE) + toCntl);
        Unmap(mssync, PS_SIZE, toCntl);
        Unmap(cntl, PS_SIZE, toSignal1);
        Unmap(signal1, PS_SIZE, toSignal2);
        Unmap(signal2, PS_SIZE, Owned(mem, LS_SIZE));
      }
      NothingMore(k.regions, Owned(mem, LS_SIZE), Owned(mem, LS_SIZE));
      Unmap(mem, LS_SIZE, multiset{});
      NothingMore(k.regions, multiset{}, multiset{});
    }

    /** Lines 168-175 */
    method FreeDescriptors()
      requires fds.Length == FDS && k.Valid() && Descriptors() <= k.fds
      modifies k
      ensures k.Valid() && k.regions == old(k.regions) && k.fds == old(k.fds) - Descriptors()
    {
      hide Cached, One;
      var i := 0;
      assert fds[0..] == fds[..];
      while i < FDS
        invariant 0 <= i <= FDS && k.Valid() && k.regions == old(k.regions)
        invariant Cached(fds[i..]) + One(fdSpeDir) <= k.fds
        invariant k.fds - (Cached(fds[i..]) + One(fdSpeDir)) == old(k.fds) - Descriptors()
      {
        CachedStep(fds[..], i, One(fdSpeDir));
        assert fds[..][i..] == fds[i..] && fds[..][i + 1..] == fds[i + 1..];
        CloseEntry(fds[i], Cached(fds[i + 1..]) + One(fdSpeDir));
        i := i + 1;
      }
      CachedEnd(One(fdSpeDir));
      assert fds[i..] == [];
      CloseEntry(fdSpeDir, multiset{});
      NoneMore(k.fds);
    }

    lemma JustMemory()
      requires psmap == mssync == mfc == cntl == signal1 == signal2 == MapFailed
      ensures Areas() == Owned(mem, LS_SIZE) && OtherRegions() == Minus(k.regions, Owned(mem, LS_SIZE))
    {
      NothingOwned(PS_SIZE);
    }

    /** With the memory mapped before, and the whole problem state now. */
    lemma OnePiece(all: multiset<Region>)
      requires psmap.Mapped? && Within(Owned(mem, LS_SIZE), all) && k.regions == Plus(all, Owned(psmap, PSMAP_SIZE))
      ensures Within(Areas(), k.regions) && OtherRegions() == Minus(all, Owned(mem, LS_SIZE))
    {
      hide Owned;
      OneMore(all, Owned(mem, LS_SIZE), Owned(psmap, PSMAP_SIZE));
    }

    /** With the memory mapped before, and the five areas now. */
    lemma FivePieces(all: multiset<Region>)
      requires psmap.MapFailed? && Within(Owned(mem, LS_SIZE), all)
      requires k.regions == Plus(Plus(Plus(Plus(Plus(all, Owned(mfc, PS_SIZE)), Owned(mssync, PS_SIZE)),
                                           Owned(cntl, PS_SIZE)), Owned(signal1, PS_SIZE)), Owned(signal2, PS_SIZE))
      ensures Within(Areas(), k.regions) && OtherRegions() == Minus(all, Owned(mem, LS_SIZE))
    {
      hide Owned;
      FiveMore(all, Owned(mem, LS_SIZE), Owned(mfc, PS_SIZE), Owned(mssync, PS_SIZE), Owned(cntl, PS_SIZE),
               Owned(signal1, PS_SIZE), Owned(signal2, PS_SIZE));
    }

    // ---------- the steps of creation ----------

    /** Line 263 */
    method MakeDirectory()
      requires Valid() && fdSpeDir == -1
      modifies k, this`fdSpeDir
      ensures Valid() && fdSpeDir == NextOpen(old(k.opens), old(k.fds)) && k.fds == Plus(old(k.fds), One(fdSpeDir))
      ensures k.Left() == old(k.Left()).(opens := Rest(old(k.opens)))
      ensures Others() == old(Others()) && OtherRegions() == old(OtherRegions())
    {
      hide Cached, Owned, One;
      NoDirectory(Cached(fds[..]));
      ghost var all := k.fds;
      fdSpeDir := k.Open();
      TakenIn(all, Cached(fds[..]), One(fdSpeDir));
    }

    /** Line 297 */
    method MapMemory()
      requires Valid() && mem == MapFailed && psmap == mssync == mfc == cntl == signal1 == signal2 == MapFailed
      modifies k, this`mem
      ensures Valid() && k.fds == old(k.fds)
      ensures (mem, k.Left()) == FileMapped(old(k.Left()), k.fds)
      ensures Others() == old(Others()) && OtherRegions() == old(OtherRegions())
    {
      hide Cached, Owned, One, Areas, Descriptors, Kernel.Valid;
      NothingOwned(LS_SIZE);
      JustMemory();
      ghost var all := k.regions;
      mem := MapFileAt(k, LS_SIZE);
      JustMemory();
      OnlyMemory(Owned(mem, LS_SIZE), all);
    }

    /** Lines 305-349: the problem state area in one piece or, failing that, in five */
    method MapProblemState() returns (ok: bool)
      requires Valid() && psmap == mssync == mfc == cntl == signal1 == signal2 == MapFailed
      modifies k, this`psmap, this`mssync, this`mfc, this`cntl, this`signal1, this`signal2
      ensures Valid()
      ensures Others() == old(Others()) && OtherRegions() == old(OtherRegions())
      ensures k.fds == old(k.fds) && (ok, k.Left()) == ProblemStateMapped(old(k.Left()), k.fds)
      ensures ok <==> cntl.Mapped? && mfc.Mapped? && signal1.Mapped? && signal2.Mapped?
      ensures psmap.Mapped? ==> ok && InOnePiece()
    {
      hide Owned, Descriptors, Areas, OtherRegions, Kernel.Valid, Plus, Minus, Within;
      hide FileMapped, FiveMapped, ProblemStateMapped, NextOpen, Kernel.Left;
      ghost var all := k.regions;
      JustMemory();
      psmap := MapFileAt(k, PSMAP_SIZE);
      if psmap != MapFailed {
        PointInto();
        OnePiece(all);
        InOneMapping(old(k.Left()), k.fds, psmap, k.Left());
        return true;
      }
      NothingOwned(PSMAP_SIZE);
      PlusNothing(all);
      ok := MapPieces(old(k.Left()));
    }

    /** Lines 312-321 */
    method PointInto()
      requires psmap.Mapped?
      modifies this`mssync, this`mfc, this`cntl, this`signal1, this`signal2
      ensures InOnePiece()
    {
      mssync := Mapped(psmap.base + MSSYNC_OFFSET);
      mfc := Mapped(psmap.base + MFC_OFFSET);
      cntl := Mapped(psmap.base + CNTL_OFFSET);
      signal1 := Mapped(psmap.base + SIGNAL1_OFFSET);
      signal2 := Mapped(psmap.base + SIGNAL2_OFFSET);
    }

    /** Lines 325-333 */
    method MapIntoFive()
      requires k.Valid()
      modifies k, this`mssync, this`mfc, this`cntl, this`signal1, this`signal2
      ensures k.Valid() && k.fds == old(k.fds) && Descriptors() == old(Descriptors())
      ensures FiveMapped(old(k.Left()), k.fds, [mfc, mssync, cntl, signal1, signal2], k.Left())
      ensures k.regions == Plus(Plus(Plus(Plus(Plus(old(k.regions), Owned(mfc, PS_SIZE)), Owned(mssync, PS_SIZE)),
                                          Owned(cntl, PS_SIZE)), Owned(signal1, PS_SIZE)), Owned(signal2, PS_SIZE))
    {
      hide Owned, Plus, FiveMapped, Descriptors, Kernel.Valid, Kernel.Left;
      mfc, mssync, cntl, signal1, signal2 := MapFive(k);
    }

    /** Lines 325-341 */
    method MapPieces(ghost start: Script) returns (ok: bool)
      requires Valid() && psmap == mssync == mfc == cntl == signal1 == signal2 == MapFailed
      modifies k, this`mssync, this`mfc, this`cntl, this`signal1, this`signal2
      ensures Valid()
      ensures Others() == old(Others()) && OtherRegions() == old(OtherRegions())
      requires FileMapped(start, k.fds) == (MapFailed, k.Left())
      ensures k.fds == old(k.fds) && (ok, k.Left()) == ProblemStateMapped(start, k.fds)
      ensures ok <==> cntl.Mapped? && mfc.Mapped? && signal1.Mapped? && signal2.Mapped?
    {
      hide Owned, Descriptors, Areas, OtherRegions, Kernel.Valid, Plus, Minus, Within;
      hide FileMapped, FiveMapped, ProblemStateMapped, NextOpen, Kernel.Left;
      ghost var all := k.regions;
      JustMemory();
      MapIntoFive();
      InFivePieces(start, old(k.Left()), k.fds, [mfc, mssync, cntl, signal1, signal2], k.Left());
      FivePieces(all);
      ok := mfc != MapFailed && cntl != MapFailed && signal1 != MapFailed && signal2 != MapFailed;
    }

    /** setsignotify: it fails exactly if the file cannot be opened; a write that fails goes
        unnoticed */
    method SetSigNotify(wrote: bool) returns (rc: int)
      requires Valid()
      modifies k
      ensures Valid()
      ensures Others() == old(Others()) && OtherRegions() == old(OtherRegions())
      ensures rc == if NextOpen(old(k.opens), old(k.fds)) < 0 then -1 else 0
      ensures k.fds == old(k.fds) && k.Left() == old(k.Left()).(opens := Rest(old(k.opens)))
    {
      hide Descriptors, Areas, Minus, Within, Kernel.Valid;
      rc := OpenAndWrite(k, wrote);
    }

    ghost predicate InOnePiece()
      reads this
    {
      && psmap.Mapped?
      && mssync == Mapped(psmap.base) && mfc == Mapped(psmap.base + 0x3000) && cntl == Mapped(psmap.base + 0x4000)
      && signal1 == Mapped(psmap.base + 0x14000) && signal2 == Mapped(psmap.base + 0x1C000)
    }
  }

  method Entries(values: seq<int>) returns (a: array<int>)
    ensures fresh(a) && a.Length == |values| && forall i :: 0 <= i < a.Length ==> a[i] == values[i]
  {
    a := new int[|values|](i requires 0 <= i < |values| => values[i]);
  }

  /** The areas of one mapping lie within it. */
  lemma AreasInside(c: Context)
    requires c.psmap.Mapped? && c.InOnePiece()
    ensures forall m :: m in [c.mssync, c.mfc, c.cntl, c.signal1, c.signal2] ==>
      m.Mapped? && c.psmap.base <= m.base && m.base + PS_SIZE <= c.psmap.base + PSMAP_SIZE
  {}

  lemma PlusNothing(all: multiset<Region>)
    ensures Plus(all, multiset{}) == all
  {}

  lemma NothingOwned(size: nat)
    ensures Owned(MapFailed, size) == multiset{}
  {}

  lemma NoDirectory(c: multiset<int>)
    ensures One(-1) == multiset{} && c + multiset{} == c
  {}

  lemma OneDescriptor(all: multiset<int>, fd: int)
    ensures fd < 0 ==> all + One(fd) == all
    ensures fd >= 0 ==> fd in all + One(fd) && (all + One(fd)) - multiset{fd} == all
  {}

  lemma OnlyMemory(m: multiset<Region>, all: multiset<Region>)
    ensures m <= all + m && (all + m) - m == all && all - multiset{} == all && all + multiset{} == all
  {}

  lemma OneMore(all: multiset<Region>, m: multiset<Region>, a: multiset<Region>)
    requires m <= all
    ensures a + m <= all + a && (all + a) - (a + m) == all - m
  {}

  lemma FiveMore(all: multiset<Region>, m: multiset<Region>, a: multiset<Region>, b: multiset<Region>,
                 c: multiset<Region>, d: multiset<Region>, e: multiset<Region>)
    requires m <= all
    ensures a + (b + (c + (d + (e + m)))) <= all + a + b + c + d + e
    ensures (all + a + b + c + d + e) - (a + (b + (c + (d + (e + m))))) == all - m
  {
    assert a + (b + (c + (d + (e + m)))) == (a + b + c + d + e) + m;
    assert all + a + b + c + d + e == all + (a + b + c + d + e);
  }

  /** Lines 79-88 */
  method OpenAndWrite(k: Kernel, wrote: bool) returns (rc: int)
    requires k.Valid()
    modifies k
    ensures k.Valid() && k.fds == old(k.fds) && k.regions == old(k.regions)
    ensures rc == if NextOpen(old(k.opens), old(k.fds)) < 0 then -1 else 0
    ensures k.Left() == old(k.Left()).(opens := Rest(old(k.opens)))
  {
    hide One, NextOpen;
    ghost var all := k.fds;
    var fdSig := k.Open();
    OneDescriptor(all, fdSig);
    if fdSig < 0 { return -1; }
    rc := 0;
    if !wrote { rc := -1; }
    k.Close(fdSig);
    return 0;
  }

  /** mapfileat: the descriptor is only needed for the mapping */
  method MapFileAt(k: Kernel, size: nat) returns (m: Map)
    requires k.Valid()
    modifies k
    ensures k.Valid() && k.fds == old(k.fds) && k.regions == Plus(old(k.regions), Owned(m, size))
    ensures (m, k.Left()) == FileMapped(old(k.Left()), k.fds)
  {
    NothingOwned(size);
    m := MapFailed;
    var fdTemp := k.Open();
    if fdTemp < 0 { return; }
    m := k.Mmap(size);
    k.Close(fdTemp);
  }

  method MapFive(k: Kernel) returns (mfc: Map, mssync: Map, cntl: Map, signal1: Map, signal2: Map)
    requires k.Valid()
    modifies k
    ensures k.Valid() && k.fds == old(k.fds)
    ensures FiveMapped(old(k.Left()), k.fds, [mfc, mssync, cntl, signal1, signal2], k.Left())
    ensures k.regions == Plus(Plus(Plus(Plus(Plus(old(k.regions), Owned(mfc, PS_SIZE)), Owned(mssync, PS_SIZE)),
                                        Owned(cntl, PS_SIZE)), Owned(signal1, PS_SIZE)), Owned(signal2, PS_SIZE))
  {
    hide Owned, Plus, FileMapped, Kernel.Valid, Kernel.Left;
    mfc := MapFileAt(k, PS_SIZE);
    mssync := MapFileAt(k, PS_SIZE);
    cntl := MapFileAt(k, PS_SIZE);
    signal1 := MapFileAt(k, PS_SIZE);
    signal2 := MapFileAt(k, PS_SIZE);
  }

  /** Lines 272-290: the errors of spu_create that are passed on */
  function CreateError(e: Errno, isolate: bool): Errno {
    match e
    case ENOTSUP => e
    case EEXIST => e
    case EINVAL => e
    case EBUSY => e
    case ENODEV => e
    case EPERM => if isolate then ENODEV else e
    case _ => EFAULT
  }

  /** The caller gets five errors of spu_create as they are; that of a missing right too,
      but in isolated mode as ENODEV; and EFAULT for any other. */
  predicate PassedOn(e: Errno, isolate: bool, errno: Errno) {
    && (e.ENOTSUP? || e.EEXIST? || e.EINVAL? || e.EBUSY? || e.ENODEV? ==> errno == e)
    && (e.EPERM? ==> errno == if isolate then ENODEV else EPERM)
    && (e.EFAULT? || e.ENOMEM? || e.OtherError? ==> errno == EFAULT)
  }

  lemma CreateErrorIs(e: Errno, isolate: bool)
    ensures PassedOn(e, isolate, CreateError(e, isolate))
  {}

  /** _base_spe_context_create.  `memory` says whether malloc succeeds and `junk` is what
      its memory holds; `createErrno` is the error of spu_create, if it fails, and `wrote`
      the outcome of the two writes. */
  method Create(k: Kernel, flags: Flags, loaderPresent: bool, memory: bool, junk: seq<int>,
                createErrno: Errno, wrote: (bool, bool))
    returns (c: Context?, errno: Errno, stage: Stage)
    requires k.Valid() && |junk| == FDS
    modifies k
    ensures k.Valid()
    ensures c == null <==> stage != Created
    ensures c == null ==> k.fds == old(k.fds) && k.regions == old(k.regions)
    ensures c != null ==>
      && fresh(c) && fresh(c.fds) && fresh(c.refcount) && c.k == k && c.Valid()
      && c.fds.Length == FDS && c.refcount.Length == FDS
      && c.Others() == old(k.fds) && c.OtherRegions() == old(k.regions)
      && c.fdSpeDir == old(NextOpen(k.opens, k.fds)) && k.fds == Plus(old(k.fds), One(c.fdSpeDir))
      && Usable(c) && c.flags == flags.(mapPs := flags.mapPs || flags.isolate)
      && (forall i :: 0 <= i < FDS ==> c.fds[i] == -1 && c.refcount[i] == junk[i])
      && (c.Counted() <==> junk == seq(FDS, i => 0))
    ensures stage ==
      if flags.isolateEmulate && !loaderPresent then NoLoader
      else if !memory then NoMemory
      else StageOf(flags, old(k.Left()), old(k.fds)).0
    ensures c != null ==> k.Left() == StageOf(flags, old(k.Left()), old(k.fds)).1
    ensures match stage
      case NoLoader => errno == EINVAL
      case NoMemory => errno == ENOMEM
      case Directory => errno == CreateError(createErrno, flags.isolate)
      case Mapping => errno == ENOMEM
      case SignalType => errno == EFAULT && (flags.sigNotify1Or || flags.sigNotify2Or)
      case Created => true
    ensures stage == Directory ==> PassedOn(createErrno, flags.isolate, errno)
  {
    CreateErrorIs(createErrno, flags.isolate);
    hide PassedOn;
    hide Owned, One, Cached, Context.Descriptors, Context.Areas, Context.Others, Context.OtherRegions;
    hide StageOf, Kernel.Left, Usable, CreateError;
    hide Context.Valid, Kernel.Valid, NextOpen, Plus;
    c, errno, stage := null, EINVAL, NoLoader;
    if flags.isolateEmulate && !loaderPresent { return; }
    if !memory { return null, ENOMEM, NoMemory; }
    var spe := new Context(k, junk);
    spe.flags := flags.(mapPs := flags.mapPs || flags.isolate);
    IsolatedMaps(flags, k.Left(), k.fds);
    var failed: Errno;
    failed, stage := Fill(spe, createErrno, wrote);
    if stage != Created {
      spe.Free();
      return null, failed, stage;
    }
    c := spe;
  }

  /** Lines 263-369, up to the first thing that fails */
  method Fill(c: Context, createErrno: Errno, wrote: (bool, bool)) returns (errno: Errno, stage: Stage)
    requires c.Valid() && c.fdSpeDir == -1
    requires c.mem == c.psmap == c.mssync == c.mfc == c.cntl == c.signal1 == c.signal2 == MapFailed
    requires c.flags.isolate ==> c.flags.mapPs
    modifies c, c.k
    ensures c.Valid() && c.k.Valid() && c.flags == old(c.flags)
    ensures c.Others() == old(c.Others()) && c.OtherRegions() == old(c.OtherRegions())
    ensures forall i :: 0 <= i < FDS ==> c.fds[i] == old(c.fds[i]) && c.refcount[i] == old(c.refcount[i])
    ensures (stage, c.k.Left()) == StageOf(c.flags, old(c.k.Left()), old(c.k.fds))
    ensures c.fdSpeDir == old(NextOpen(c.k.opens, c.k.fds)) && c.k.fds == Plus(old(c.k.fds), One(c.fdSpeDir))
    ensures match stage
      case Directory => errno == CreateError(createErrno, c.flags.isolate)
      case Mapping => errno == ENOMEM
      case SignalType => errno == EFAULT && (c.flags.sigNotify1Or || c.flags.sigNotify2Or)
      case Created => Usable(c)
      case _ => false
  {
    hide Owned, One, Plus, Cached, Context.Descriptors, Context.Areas, Context.Others, Context.OtherRegions;
    hide FileMapped, ProblemStateMapped, CreateError, Kernel.Valid;
    errno, stage := createErrno, Created;
    c.MakeDirectory();
    if c.fdSpeDir < 0 { return CreateError(createErrno, c.flags.isolate), Directory; }
    c.MapMemory();
    if c.mem == MapFailed { return ENOMEM, Mapping; }
    if c.flags.mapPs {
      var ok := c.MapProblemState();
      if !ok { return ENOMEM, Mapping; }
    }
    stage := SetSignalTypes(c, wrote);
    if stage == SignalType { errno := EFAULT; }
  }

  /** Lines 351-369: the files of the signal types that were asked for */
  method SetSignalTypes(c: Context, wrote: (bool, bool)) returns (stage: Stage)
    requires c.Valid()
    modifies c.k
    ensures c.Valid() && c.Others() == old(c.Others()) && c.OtherRegions() == old(c.OtherRegions())
    ensures (stage, c.k.Left()) == SignalStage(c.flags, old(c.k.Left()), c.k.fds) && c.k.fds == old(c.k.fds)
  {
    hide Plus, NextOpen, Context.Descriptors, Context.Areas, Context.Others, Context.OtherRegions, Context.Valid;
    if c.flags.sigNotify1Or {
      var rc := c.SetSigNotify(wrote.0);
      if rc != 0 { return SignalType; }
    }
    if c.flags.sigNotify2Or {
      var rc := c.SetSigNotify(wrote.1);
      if rc != 0 { return SignalType; }
    }
    stage := Created;
  }

  /** Local store is mapped, and so is the problem state where that was asked for. */
  ghost predicate Usable(c: Context)
    reads c
  {
    && c.fdSpeDir >= 0 && c.mem.Mapped?
    && (c.flags.mapPs ==> c.cntl.Mapped? && c.mfc.Mapped? && c.signal1.Mapped? && c.signal2.Mapped?)
    && (c.psmap.Mapped? ==> c.InOnePiece())
  }

  lemma CachedStep(cache: seq<int>, i: nat, dir: multiset<int>)
    requires i < |cache|
    ensures Cached(cache[i..]) + dir == One(cache[i]) + (Cached(cache[i + 1..]) + dir)
  {
    assert cache[i..][1..] == cache[i + 1..];
  }

  lemma CachedEnd(dir: multiset<int>)
    ensures Cached([]) + dir == dir + multiset{}
  {}

  lemma NoneMore(a: multiset<int>)
    ensures a - multiset{} == a
  {}

  lemma NothingMore(all: multiset<Region>, a: multiset<Region>, b: multiset<Region>)
    ensures all - multiset{} == all && a + multiset{} == a && b + multiset{} == b
  {}

  /** Entry i of the cache, empty so far, gets the descriptor just opened. */
  lemma Cache(cache: seq<int>, i: nat, fd: int, dir: multiset<int>, all: multiset<int>)
    requires i < |cache| && cache[i] == -1 && Cached(cache) + dir <= all
    ensures Cached(cache[i := fd]) + dir <= all + One(fd)
    ensures (all + One(fd)) - (Cached(cache[i := fd]) + dir) == all - (Cached(cache) + dir)
  {
    CachedUpdate(cache, i, fd);
    assert Cached(cache[i := fd]) == Cached(cache) + One(fd);
    TakenIn(all, Cached(cache) + dir, One(fd));
    assert Cached(cache[i := fd]) + dir == (Cached(cache) + dir) + One(fd);
  }

  /** Entry i of the cache leaves it. */
  lemma Uncache(cache: seq<int>, i: nat, dir: multiset<int>, all: multiset<int>)
    requires i < |cache| && cache[i] >= -1 && cache[i] != -1 && Cached(cache) + dir <= all
    ensures cache[i] in all && all - One(cache[i]) == all - multiset{cache[i]}
    ensures Cached(cache[i := -1]) + dir <= all - One(cache[i])
    ensures (all - One(cache[i])) - (Cached(cache[i := -1]) + dir) == all - (Cached(cache) + dir)
  {
    CachedUpdate(cache, i, -1);
    var fd, rest := One(cache[i]), Cached(cache[i := -1]) + dir;
    assert Cached(cache) == Cached(cache[i := -1]) + fd;
    assert Cached(cache) + dir == rest + fd;
    assert cache[i] in rest + fd;
  }

  // ---------- a whole lifetime ----------

  datatype Use = OpenFile(i: nat) | CloseFile(i: nat)

  /** Whatever the kernel answers, a context that is created, used and destroyed, or not
      created at all, leaves the descriptors and the mappings of the process as they were. */
  method Lifetime(k: Kernel, flags: Flags, loaderPresent: bool, memory: bool, junk: seq<int>,
                  createErrno: Errno, wrote: (bool, bool), uses: seq<Use>)
    requires k.Valid() && |junk| == FDS
    requires forall u :: u in uses ==> u.i < FDS
    modifies k
    ensures k.Valid() && k.fds == old(k.fds) && k.regions == old(k.regions)
  {
    hide Owned, One, Cached, Context.Descriptors, Context.Areas, Context.Others, Context.OtherRegions;
    var c, errno, stage := Create(k, flags, loaderPresent, memory, junk, createErrno, wrote);
    if c == null { return; }
    var n := 0;
    while n < |uses|
      invariant 0 <= n <= |uses| && c.Valid()
      invariant c.Others() == old(k.fds) && c.OtherRegions() == old(k.regions)
      modifies k, c.fds, c.refcount
    {
      match uses[n] {
        case OpenFile(i) => var fd := c.OpenIfClosed(i);
        case CloseFile(i) => c.CloseIfOpen(i);
      }
      n := n + 1;
    }
    c.Free();
  }

  // ---------- counts that are wrong ----------

  /** A process in which descriptor 0 is in use creates a context without problem state. */
  method PlainContext(junk: seq<int>) returns (k: Kernel, c: Context)
    requires |junk| == FDS
    ensures c.k == k && k.Valid() && c.Valid() && fresh(k) && fresh(c) && fresh(c.fds) && fresh(c.refcount)
    ensures c.fds.Length == FDS && c.refcount.Length == FDS
    ensures forall i :: 0 <= i < FDS ==> c.fds[i] == -1 && c.refcount[i] == junk[i]
    ensures c.fdSpeDir == 1 && k.fds == multiset{0, 1} && k.opens == [0]
    ensures c.Counted() <==> junk == seq(FDS, i => 0)
  {
    var flags := Flags(false, false, false, false, false);
    k := new Kernel([0, 1, 2, 0], [Mapped(0x1000)]);
    var fd := k.Open();
    assert k.fds == multiset{0};
    assert k.Left() == Script([1, 2, 0], [Mapped(0x1000)]);
    PlainScript(flags);
    hide Context.Valid, Context.Counted, StageOf, Kernel.Valid;
    var d, errno, stage := Create(k, flags, true, true, junk, EFAULT, (true, true));
    c := d;
  }

  lemma JustDirectory(c: Context)
    requires c.fdSpeDir == 1 && forall i :: 0 <= i < c.fds.Length ==> c.fds[i] == -1
    ensures c.Descriptors() == multiset{1}
  {
    CachedNone(c.fds[..]);
  }

  /** Descriptor 0 does not belong to the context. */
  method CloseZero(c: Context)
    requires c.Valid() && c.k.fds == multiset{0, 1} && c.Descriptors() == multiset{1}
    modifies c.k
    ensures c.Valid() && c.k.fds == multiset{1} && c.k.opens == old(c.k.opens)
  {
    hide Context.Descriptors, Context.Areas;
    c.k.Close(0);
    assert c.k.fds == multiset{1};
  }

  lemma PlainScript(flags: Flags)
    requires flags == Flags(false, false, false, false, false)
    ensures NextOpen([1, 2, 0], multiset{0}) == 1 && Plus(multiset{0}, One(1)) == multiset{0, 1}
    ensures StageOf(flags, Script([1, 2, 0], [Mapped(0x1000)]), multiset{0}) == (Created, Script([0], []))
  {
    assert [1, 2, 0][1..] == [2, 0] && [2, 0][1..] == [0];
    assert [Mapped(0x1000)][1..] == [];
  }

  method OpenZero(c: Context)
    requires c.Valid() && c.fds.Length == FDS && c.refcount.Length == FDS
    requires c.fds[0] == -1 && c.refcount[0] == 0 && 0 !in c.k.fds && c.k.opens == [0]
    modifies c.k, c.fds, c.refcount
    ensures c.fds[0] == 0 && c.refcount[0] == 0 && !c.Counted()
  {
    hide Context.Valid, Kernel.Valid, Context.Others, Context.OtherRegions;
    assert NextOpen([0], c.k.fds) == 0;
    var fd := c.OpenIfClosed(0);
  }

  /** A process that closes descriptor 0 after it has created a context, so that openat
      gives it out again: the file is open, and nobody counts it. */
  method ZeroIsNotCounted() returns (c: Context)
    ensures c.fds.Length == FDS && c.refcount.Length == FDS
    ensures c.fds[0] == 0 && c.refcount[0] == 0 && !c.Counted()
  {
    hide Context.Valid, Kernel.Valid, Context.Descriptors, Context.Counted;
    var k;
    k, c := PlainContext(seq(FDS, i => 0));
    JustDirectory(c);
    CloseZero(c);
    OpenZero(c);
  }

  /** Counts that malloc's memory happens to hold are kept. */
  method JunkIsKept(junk: seq<int>) returns (c: Context)
    requires |junk| == FDS && junk[0] == 1
    ensures c.fds.Length == FDS && c.refcount.Length == FDS
    ensures c.fds[0] == -1 && c.refcount[0] == 1 && !c.Counted()
  {
    var k;
    k, c := PlainContext(junk);
  }
}
