/** The argument image of elfspe/elfspe.c: spe_copy_argv lays out argv and its strings in a
    block that the SPE program copies to the top of its local store. */
module Argv {
  import opened Bytes
  import opened Common

  /** The characters of a C string, without the terminating NUL. */
  type CString = s: seq<Byte> | forall k :: 0 <= k < |s| ==> s[k] != 0 witness []

  // ---------- sizes ----------

  /** The bytes of the first n strings, with their NULs. */
  function Chars(argv: seq<CString>, n: nat): (r: nat)
    requires n <= |argv|
    ensures r >= n
  {
    if n == 0 then 0 else Chars(argv, n - 1) + |argv[n - 1]| + 1
  }

  lemma {:induction false} CharsMonotone(argv: seq<CString>, i: nat, j: nat)
    requires i < j <= |argv|
    ensures Chars(argv, i) + |argv[i]| + 1 <= Chars(argv, j)
    decreases j
  {
    if i < j - 1 { CharsMonotone(argv, i, j - 1); }
  }

  function Align16(n: nat): (r: nat)
    ensures n <= r < n + 16 && r % 16 == 0
  {
    (n + 15) / 16 * 16
  }

  /** The size of the block for n strings. */
  function Size(argv: seq<CString>, n: nat): (r: nat)
    requires n <= |argv|
  {
    Align16(Chars(argv, n) + 4 * (n + 1))
  }

  /** A value as it is kept in a 32-bit int. */
  function Int32(x: int): (r: int)
    ensures -0x8000_0000 <= r < 0x8000_0000
  {
    (x + 0x8000_0000) % 0x1_0000_0000 - 0x8000_0000
  }

  /** SPE_ARG_MAX, when it is set to a number within the default, rounded down */
  function ArgMax(setting: Setting): (m: nat)
    ensures m <= 4096 && m % 16 == 0
    ensures if setting.Is? && 0 <= setting.v <= 4096 then m <= setting.v < m + 16 else m == 4096
  {
    if setting.Is? && 0 <= setting.v <= 4096 then setting.v / 16 * 16 else 4096
  }

  datatype Setting = Unset | Is(v: int)

  /** Lines 99-103, in 32 bits all along. */
  method CountBytes(argv: seq<CString>, argc: nat) returns (nbytes: int)
    requires argc <= |argv|
    ensures nbytes == Int32(Size(argv, argc))
  {
    hide Int32, Align16;
    UnwrappedZero();
    nbytes := 0;
    var i := 0;
    while i < argc
      invariant 0 <= i <= argc
      invariant nbytes == Int32(Chars(argv, i))
    {
      AddWraps(Chars(argv, i), |argv[i]| + 1);
      nbytes := Int32(nbytes + |argv[i]| + 1);
      i := i + 1;
    }
    AddWraps(Chars(argv, argc), 4 * (argc + 1));
    nbytes := Int32(nbytes + 4 * (argc + 1));
    AlignWraps(Chars(argv, argc) + 4 * (argc + 1));
    nbytes := Int32(nbytes + 15);
    nbytes := nbytes / 16 * 16;
  }

  lemma AddWraps(a: int, b: int)
    ensures Int32(Int32(a) + b) == Int32(a + b)
  {
    var k := (a + 0x8000_0000) / 0x1_0000_0000;
    var n := (a + b + 0x8000_0000) / 0x1_0000_0000;
    assert Int32(a) == a - 0x1_0000_0000 * k;
    Unwrapped(Int32(a) + b, n - k);
  }

  lemma UnwrappedZero()
    ensures Int32(0) == 0
  {}

  lemma AlignWraps(n: nat)
    ensures Int32(Int32(n) + 15) / 16 * 16 == Int32(Align16(n))
  {
    AddWraps(n, 15);
    var x := n + 15;
    var k := (x + 0x8000_0000) / 0x1_0000_0000;
    Unwrapped(x, k);
    assert (x - 0x1_0000_0000 * k) / 16 == x / 16 - 0x1000_0000 * k;
    Unwrapped(x / 16 * 16, k);
  }

  lemma Unwrapped(x: int, k: int)
    requires -0x8000_0000 <= x - 0x1_0000_0000 * k < 0x8000_0000
    ensures Int32(x) == x - 0x1_0000_0000 * k
  {
    assert (x + 0x8000_0000) / 0x1_0000_0000 == k;
  }

  /** The test against the limit is right exactly for sizes within it, and for larger ones
      whose low 32 bits are a positive int above it: from 2^31 on, the sum kept in an int
      may come out small or negative again. */
  lemma LimitIff(size: nat, max: nat)
    requires max <= 4096
    ensures (Int32(size) > max <==> size > max) <==> Counts(size, max)
  {}

  /** From 2^31 up to 2^32 the sum is negative, and no argument list is refused. */
  lemma LimitMissed(argv: seq<CString>, argc: nat, max: nat)
    requires argc <= |argv| && max <= 4096
    requires 0x8000_0000 <= Size(argv, argc) < 0x1_0000_0000
    ensures Size(argv, argc) > max && Int32(Size(argv, argc)) <= max
  {}

  /** Lines 92-106: the size of the block and whether it is refused */
  method CheckLimit(argv: seq<CString>, argc: nat, setting: Setting) returns (nbytes: int, tooLong: bool)
    requires argc <= |argv|
    ensures nbytes == Int32(Size(argv, argc)) && (tooLong <==> nbytes > ArgMax(setting))
  {
    var speArgMax := ArgMax(setting);
    nbytes := CountBytes(argv, argc);
    tooLong := nbytes > speArgMax;
  }

  /** The test against the limit comes out right for this size. */
  predicate Counts(size: nat, max: nat) {
    size <= max || max < size % 0x1_0000_0000 < 0x8000_0000
  }

  // ---------- the block ----------

  /** Where string i starts in the block. */
  function Offset(argv: seq<CString>, argc: nat, i: nat): (r: nat)
    requires i <= argc <= |argv|
  {
    4 * (argc + 1) + Chars(argv, i)
  }

  /** A word as it is stored. */
  function FourBytes(v: nat): (r: seq<Byte>)
    ensures |r| == 4
  {
    BE(v, 4)
  }

  lemma FourBytesRead(w: Word)
    ensures FromBE(FourBytes(w)) == w
  {
    WordRoundTrip(w);
  }

  ghost predicate WordAt(b: seq<Byte>, k: nat, v: nat) {
    k + 4 <= |b| && b[k..k + 4] == FourBytes(v)
  }

  ghost predicate StringAt(b: seq<Byte>, k: nat, s: CString) {
    k + |s| + 1 <= |b| && b[k..k + |s|] == s && b[k + |s|] == 0
  }

  ghost predicate ZeroFrom(b: seq<Byte>, k: nat) {
    forall j :: k <= j < |b| ==> b[j] == 0
  }

  ghost predicate PointerAt(b: seq<Byte>, argv: seq<CString>, argc: nat, j: nat)
    requires j <= argc <= |argv| && |b| <= LS_SIZE
  {
    WordAt(b, 4 * j, LS_SIZE - |b| + Offset(argv, argc, j))
  }

  /** The first i pointers say where the strings will be in local store. */
  ghost predicate Pointers(b: seq<Byte>, argv: seq<CString>, argc: nat, i: nat)
    requires i <= argc <= |argv| && |b| <= LS_SIZE
  {
    forall j :: 0 <= j < i ==> PointerAt(b, argv, argc, j)
  }

  ghost predicate StringsIn(b: seq<Byte>, argv: seq<CString>, argc: nat, i: nat)
    requires i <= argc <= |argv|
  {
    forall j :: 0 <= j < i ==> StringAt(b, Offset(argv, argc, j), argv[j])
  }

  /** The first i pointers and n strings are in place, and the rest is still zero. */
  ghost predicate Filled(b: seq<Byte>, argv: seq<CString>, argc: nat, i: nat, n: nat)
    requires i <= argc <= |argv| && n <= argc
  {
    && |b| == Size(argv, argc) <= LS_SIZE
    && Pointers(b, argv, argc, i) && StringsIn(b, argv, argc, n)
    && (forall k :: 4 * i <= k < 4 * (argc + 1) ==> b[k] == 0)
    && ZeroFrom(b, Offset(argv, argc, n))
  }

  lemma Fits(argv: seq<CString>, argc: nat, i: nat)
    requires i < argc <= |argv|
    ensures Offset(argv, argc, i) + |argv[i]| + 1 == Offset(argv, argc, i + 1) <= Size(argv, argc)
  {
    if i + 1 < argc { CharsMonotone(argv, i + 1, argc); }
  }

  function Copied(b: seq<Byte>, at: nat, src: seq<Byte>): (r: seq<Byte>)
    requires at + |src| <= |b|
    ensures |r| == |b|
    ensures r[at..at + |src|] == src
    ensures forall k :: 0 <= k < |b| && !(at <= k < at + |src|) ==> r[k] == b[k]
  {
    b[..at] + src + b[at + |src|..]
  }

  lemma Keeps(b: seq<Byte>, at: nat, src: seq<Byte>, k: nat, n: nat)
    requires at + |src| <= |b| && k + n <= |b| && (k + n <= at || at + |src| <= k)
    ensures Copied(b, at, src)[k..k + n] == b[k..k + n]
  {}

  lemma PointerFilled(b: seq<Byte>, argv: seq<CString>, argc: nat, i: nat)
    requires i < argc <= |argv| && Filled(b, argv, argc, i, i) && 4 * (argc + 1) <= |b|
    ensures Filled(Copied(b, 4 * i, FourBytes(LS_SIZE - |b| + Offset(argv, argc, i))), argv, argc, i + 1, i)
  {
    hide FourBytes, Size, Copied, Pointers, StringsIn;
    var w := FourBytes(LS_SIZE - |b| + Offset(argv, argc, i));
    MorePointers(b, argv, argc, i, w);
    SameStrings(b, argv, argc, i, 4 * i, w);
  }

  lemma MorePointers(b: seq<Byte>, argv: seq<CString>, argc: nat, i: nat, w: seq<Byte>)
    requires i < argc <= |argv| && |b| <= LS_SIZE && Pointers(b, argv, argc, i) && 4 * i + 4 <= |b|
    requires w == FourBytes(LS_SIZE - |b| + Offset(argv, argc, i))
    ensures Pointers(Copied(b, 4 * i, w), argv, argc, i + 1)
  {
    hide FourBytes, Copied, Offset, PointerAt;
    var c := Copied(b, 4 * i, w);
    forall j | 0 <= j < i + 1 ensures PointerAt(c, argv, argc, j) {
      if j < i { KeptPointer(b, argv, argc, i, w, j); } else { NewPointer(b, argv, argc, i, w); }
    }
  }

  lemma KeptPointer(b: seq<Byte>, argv: seq<CString>, argc: nat, i: nat, w: seq<Byte>, j: nat)
    requires j < i < argc <= |argv| && |b| <= LS_SIZE && Pointers(b, argv, argc, i) && 4 * i + |w| <= |b|
    ensures PointerAt(Copied(b, 4 * i, w), argv, argc, j)
  {
    hide Copied, Offset, WordAt;
    assert PointerAt(b, argv, argc, j);
    WordKept(b, 4 * i, w, 4 * j, LS_SIZE - |b| + Offset(argv, argc, j));
  }

  lemma NewPointer(b: seq<Byte>, argv: seq<CString>, argc: nat, i: nat, w: seq<Byte>)
    requires i < argc <= |argv| && |b| <= LS_SIZE && 4 * i + 4 <= |b|
    requires w == FourBytes(LS_SIZE - |b| + Offset(argv, argc, i))
    ensures PointerAt(Copied(b, 4 * i, w), argv, argc, i)
  {
    hide Copied, Offset, WordAt, FourBytes, PointerAt;
    var v := LS_SIZE - |b| + Offset(argv, argc, i);
    WordPut(b, 4 * i, v);
    PointerPut(Copied(b, 4 * i, w), argv, argc, i, v);
  }

  lemma PointerPut(c: seq<Byte>, argv: seq<CString>, argc: nat, i: nat, v: nat)
    requires i <= argc <= |argv| && |c| <= LS_SIZE && v == LS_SIZE - |c| + Offset(argv, argc, i) && WordAt(c, 4 * i, v)
    ensures PointerAt(c, argv, argc, i)
  {}

  lemma WordKept(b: seq<Byte>, at: nat, w: seq<Byte>, k: nat, v: nat)
    requires at + |w| <= |b| && WordAt(b, k, v) && (at + |w| <= k || k + 4 <= at)
    ensures WordAt(Copied(b, at, w), k, v)
  {
    hide Copied, FourBytes;
    Keeps(b, at, w, k, 4);
  }

  lemma WordPut(b: seq<Byte>, k: nat, v: nat)
    requires k + 4 <= |b|
    ensures WordAt(Copied(b, k, FourBytes(v)), k, v)
  {
    hide FourBytes;
  }

  lemma SameStrings(b: seq<Byte>, argv: seq<CString>, argc: nat, n: nat, at: nat, w: seq<Byte>)
    requires n <= argc <= |argv| && StringsIn(b, argv, argc, n) && at + |w| <= |b| && at + |w| <= 4 * (argc + 1)
    ensures StringsIn(Copied(b, at, w), argv, argc, n)
  {
    hide Copied;
    forall j | 0 <= j < n ensures StringAt(Copied(b, at, w), Offset(argv, argc, j), argv[j]) {
      StringKept(b, at, w, Offset(argv, argc, j), argv[j]);
    }
  }

  lemma StringKept(b: seq<Byte>, at: nat, w: seq<Byte>, k: nat, s: CString)
    requires at + |w| <= |b| && StringAt(b, k, s) && (at + |w| <= k || k + |s| + 1 <= at)
    ensures StringAt(Copied(b, at, w), k, s)
  {
    hide Copied;
    Keeps(b, at, w, k, |s|);
  }

  lemma StringFilled(b: seq<Byte>, argv: seq<CString>, argc: nat, i: nat)
    requires i < argc <= |argv| && Filled(b, argv, argc, i + 1, i)
    requires Offset(argv, argc, i + 1) <= |b|
    ensures Filled(Copied(b, Offset(argv, argc, i), argv[i] + [0]), argv, argc, i + 1, i + 1)
  {
    hide FourBytes, Size, Copied, Chars, WordAt;
    var at, s := Offset(argv, argc, i), argv[i] + [0];
    Fits(argv, argc, i);
    var c := Copied(b, at, s);
    forall j | 0 <= j < i + 1 ensures PointerAt(c, argv, argc, j) {
      assert PointerAt(b, argv, argc, j);
      WordKept(b, at, s, 4 * j, LS_SIZE - |b| + Offset(argv, argc, j));
    }
    forall j | 0 <= j < i + 1 ensures StringAt(c, Offset(argv, argc, j), argv[j]) {
      if j < i {
        CharsMonotone(argv, j, i);
        StringKept(b, at, s, Offset(argv, argc, j), argv[j]);
      } else {
        Placed(c, at, argv[i]);
      }
    }
  }

  lemma Placed(c: seq<Byte>, at: nat, s: CString)
    requires at + |s| + 1 <= |c| && c[at..at + |s| + 1] == s + [0]
    ensures StringAt(c, at, s)
  {
    assert c[at..at + |s|] == c[at..at + |s| + 1][..|s|];
    assert c[at + |s|] == c[at..at + |s| + 1][|s|];
  }

  method PutBytes(block: array<Byte>, at: nat, src: seq<Byte>)
    requires at + |src| <= block.Length
    modifies block
    ensures block[..] == Copied(old(block[..]), at, src)
  {
    CopyIn(block, at, src);
  }

  datatype Result = Done | TooLong | NoMemory

  /** spe_copy_argv.  `noArgs` and `setting` are the environment variables SPE_NO_ARGS and
      SPE_ARG_MAX, and `address` is where the block is allocated, if it is.  With a sum that
      comes out wrong there is no telling what is written where; such a list is followed up
      to a failing allocation only. */
  method SpeCopyArgv(argc: int, argv: seq<CString>, noArgs: bool, setting: Setting, address: Address,
                     r3: array<Word>, r4: array<Word>, r5: array<Word>)
    returns (r: Result, block: array?<Byte>)
    requires argc <= |argv| && r3.Length == r4.Length == r5.Length == 4
    requires r3 != r4 && r3 != r5 && r4 != r5
    requires argc > 0 && !noArgs ==> Counts(Size(argv, argc), ArgMax(setting)) || address.Nowhere?
    modifies r3, r4, r5
    ensures r5[..] == [0, 0, 0, 0]
    ensures argc <= 0 || noArgs ==> r.Done? && block == null
    ensures argc > 0 && !noArgs ==>
      && (Counts(Size(argv, argc), ArgMax(setting)) ==> (r == TooLong <==> Size(argv, argc) > ArgMax(setting)))
      && (!Counts(Size(argv, argc), ArgMax(setting)) ==> r == NoMemory && Size(argv, argc) > ArgMax(setting))
      && (r == NoMemory <==> r != TooLong && address.Nowhere?)
    ensures block == null ==> r3[..] == r4[..] == [0, 0, 0, 0]
    ensures block != null <==> argc > 0 && !noArgs && r.Done?
    ensures block != null ==>
      && fresh(block) && block.Length <= ArgMax(setting) && Filled(block[..], argv, argc, argc, argc)
      && r3[..] == [argc, 0, 0, 0]
      && r4[..] == [LS_SIZE - block.Length, address.a / 0x1_0000_0000, address.a % 0x1_0000_0000, block.Length]
  {
    hide FourBytes, Chars, Align16, Copied;
    r, block := Done, null;
    forall i | 0 <= i < 4 { r3[i] := 0; }
    forall i | 0 <= i < 4 { r4[i] := 0; }
    forall i | 0 <= i < 4 { r5[i] := 0; }
    if argc <= 0 || noArgs { return; }
    LimitIff(Size(argv, argc), ArgMax(setting));
    var nbytes, tooLong := CheckLimit(argv, argc, setting);
    if tooLong { return TooLong, null; }
    if address.Nowhere? { return NoMemory, null; }
    Unwrapped(Size(argv, argc), 0);
    block := new Byte[nbytes](_ => 0);
    FillBlock(block, argv, argc);
    r3[0] := argc;
    r4[0] := LS_SIZE - nbytes;
    r4[1] := address.a / 0x1_0000_0000;
    r4[2] := address.a % 0x1_0000_0000;
    r4[3] := nbytes;
  }

  /** posix_memalign's answer */
  datatype Address = Nowhere | At(a: Addr64)

  /** Lines 113-124, on a block of zeros */
  method FillBlock(block: array<Byte>, argv: seq<CString>, argc: nat)
    requires argc <= |argv| && block.Length == Size(argv, argc) <= 4096
    requires forall k :: 0 <= k < block.Length ==> block[k] == 0
    modifies block
    ensures Filled(block[..], argv, argc, argc, argc)
  {
    hide FourBytes, Chars, Align16, Copied;
    var end := block.Length;
    var ptr := 4 * (argc + 1);
    NoChars(argv);
    var i := 0;
    while i < argc
      invariant 0 <= i <= argc && ptr == Offset(argv, argc, i)
      invariant Filled(block[..], argv, argc, i, i)
    {
      hide *;
      FillOne(block, argv, argc, i, ptr, end);
      Fits(argv, argc, i);
      ptr := ptr + |argv[i]| + 1;
      i := i + 1;
    }
    NullFilled(block[..], argv, argc);
    PutBytes(block, 4 * argc, FourBytes(0));
  }

  lemma NoChars(argv: seq<CString>)
    ensures Chars(argv, 0) == 0
  {}

  lemma NullFilled(b: seq<Byte>, argv: seq<CString>, argc: nat)
    requires argc <= |argv| && Filled(b, argv, argc, argc, argc)
    ensures 4 * argc + 4 <= |b| && Copied(b, 4 * argc, FourBytes(0)) == b
  {
    hide FourBytes, Pointers, StringsIn, Copied;
    NullWord();
    var c := Copied(b, 4 * argc, FourBytes(0));
    forall k | 0 <= k < |b| ensures c[k] == b[k] {
      if 4 * argc <= k < 4 * argc + 4 { assert c[k] == c[4 * argc..4 * argc + 4][k - 4 * argc]; }
    }
  }

  lemma NullWord()
    ensures FourBytes(0) == [0, 0, 0, 0]
  {
    assert BE(0, 0) == [] && BE(0, 1) == [0] && BE(0, 2) == [0, 0] && BE(0, 3) == [0, 0, 0];
  }

  /** Lines 118-122 for one string */
  method FillOne(block: array<Byte>, argv: seq<CString>, argc: nat, i: nat, ptr: nat, end: nat)
    requires i < argc <= |argv| && end == block.Length == Size(argv, argc) <= 4096
    requires Filled(block[..], argv, argc, i, i) && ptr == Offset(argv, argc, i)
    modifies block
    ensures Filled(block[..], argv, argc, i + 1, i + 1)
  {
    hide FourBytes, Chars, Align16, Copied, Filled;
    Fits(argv, argc, i);
    PointerFilled(block[..], argv, argc, i);
    PutBytes(block, 4 * i, FourBytes((LS_SIZE - (end - ptr)) % LS_SIZE));
    StringFilled(block[..], argv, argc, i);
    PutBytes(block, ptr, argv[i] + [0]);
  }

  // ---------- what the SPE program sees ----------

  /** The characters from p up to a NUL. */
  function ReadString(ls: seq<Byte>, p: nat): seq<Byte>
    decreases |ls| - p
  {
    if p >= |ls| || ls[p] == 0 then [] else [ls[p]] + ReadString(ls, p + 1)
  }

  /** argv[i] of the SPE program, when argv is at a. */
  function Pointer(ls: seq<Byte>, a: nat, i: nat): nat {
    if a + 4 * i + 4 <= |ls| then FromBE(ls[a + 4 * i..a + 4 * i + 4]) else 0
  }

  lemma {:induction false} ReadsBack(ls: seq<Byte>, p: nat, s: CString)
    requires StringAt(ls, p, s)
    ensures ReadString(ls, p) == s
    decreases |s|
  {
    if |s| > 0 {
      assert ls[p] == ls[p..p + |s|][0];
      var rest: CString := s[1..];
      assert ls[p + 1..p + 1 + |rest|] == ls[p..p + |s|][1..];
      ReadsBack(ls, p + 1, rest);
      assert s == [s[0]] + rest;
    }
  }

  lemma InLocalStore(ls: seq<Byte>, b: seq<Byte>, k: nat, n: nat)
    requires |ls| == LS_SIZE && |b| <= LS_SIZE && ls[LS_SIZE - |b|..] == b && k + n <= |b|
    ensures ls[LS_SIZE - |b| + k..LS_SIZE - |b| + k + n] == b[k..k + n]
  {
    assert ls[LS_SIZE - |b|..][k..k + n] == ls[LS_SIZE - |b| + k..LS_SIZE - |b| + k + n];
  }

  lemma StringInLocalStore(ls: seq<Byte>, b: seq<Byte>, k: nat, s: CString)
    requires |ls| == LS_SIZE && |b| <= LS_SIZE && ls[LS_SIZE - |b|..] == b && StringAt(b, k, s)
    ensures StringAt(ls, LS_SIZE - |b| + k, s)
  {
    InLocalStore(ls, b, k, |s|);
    assert b[k + |s|] == ls[LS_SIZE - |b|..][k + |s|];
  }

  /** With the block at the top of local store, argv[i] is a pointer to a copy of argument i,
      argv[argc] is null, and the copies lie after the pointers, below LS_SIZE and apart. */
  lemma ArgvRoundTrip(ls: seq<Byte>, b: seq<Byte>, argv: seq<CString>, argc: nat, i: nat)
    requires i < argc <= |argv| && Filled(b, argv, argc, argc, argc)
    requires |ls| == LS_SIZE && ls[LS_SIZE - |b|..] == b
    ensures
      var a := LS_SIZE - |b|;
      var p := Pointer(ls, a, i);
      && ReadString(ls, p) == argv[i]
      && a + 4 * (argc + 1) <= p && p + |argv[i]| + 1 <= LS_SIZE
      && Pointer(ls, a, argc) == 0
      && forall j :: i < j < argc ==> p + |argv[i]| + 1 <= Pointer(ls, a, j)
  {
    hide FourBytes, FromBE, Pointer, ReadString, StringAt, ZeroFrom, Chars, Size;
    var a := LS_SIZE - |b|;
    Fits(argv, argc, i);
    PointerIs(ls, b, argv, argc, i);
    assert StringAt(b, Offset(argv, argc, i), argv[i]);
    StringInLocalStore(ls, b, Offset(argv, argc, i), argv[i]);
    ReadsBack(ls, a + Offset(argv, argc, i), argv[i]);
    NullPointer(ls, b, argv, argc);
    forall j | i < j < argc ensures Pointer(ls, a, i) + |argv[i]| + 1 <= Pointer(ls, a, j) {
      PointerIs(ls, b, argv, argc, j);
      CharsMonotone(argv, i, j);
    }
  }

  lemma PointerIs(ls: seq<Byte>, b: seq<Byte>, argv: seq<CString>, argc: nat, i: nat)
    requires i < argc <= |argv| && Filled(b, argv, argc, argc, argc)
    requires |ls| == LS_SIZE && ls[LS_SIZE - |b|..] == b
    ensures Pointer(ls, LS_SIZE - |b|, i) == LS_SIZE - |b| + Offset(argv, argc, i)
  {
    hide FourBytes, FromBE, StringsIn, ZeroFrom, Size, Chars;
    var v := LS_SIZE - |b| + Offset(argv, argc, i);
    assert PointerAt(b, argv, argc, i);
    InLocalStore(ls, b, 4 * i, 4);
    Fits(argv, argc, i);
    FourBytesRead(v);
  }

  lemma NullPointer(ls: seq<Byte>, b: seq<Byte>, argv: seq<CString>, argc: nat)
    requires argc <= |argv| && Filled(b, argv, argc, argc, argc)
    requires |ls| == LS_SIZE && ls[LS_SIZE - |b|..] == b
    ensures Pointer(ls, LS_SIZE - |b|, argc) == 0
  {
    hide FourBytes, FromBE, Pointers, StringsIn;
    InLocalStore(ls, b, 4 * argc, 4);
    assert b[4 * argc..4 * argc + 4] == [0, 0, 0, 0];
    NullWord();
    FourBytesRead(0);
  }
}
