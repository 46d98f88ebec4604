/** Marshalling the arguments of printf on the 64-bit PowerPC: `__parse_printf_format` of
    spebase/default_c99_handler.c, lines 544-643, with the va_list of lines 161-166.

    Every element of the list has 8 bytes, and a shorter value lies at the end of its own.
    A long and a pointer have 4 bytes on the SPE and 8 on the host. */
module Printf64 {
  import opened Bytes
  import opened Common
  import opened Formats
  import opened VarArgs
  import opened Directives
  import P = Printf
  import S = Scanf

  type Element = b: seq<Byte> | |b| == 8 witness [0, 0, 0, 0, 0, 0, 0, 0]

  // ---------- the arguments a format asks for ----------

  /** What the host is to find for an argument: the bytes of the SPE; a long in 8 bytes;
      the host address of a place in local store; the address of a temporary, for a long
      that is to be stored. */
  datatype Kind = Same(wide: bool) | Widened(signed: bool) | ToPlace | ToTemp

  /** The bytes of the argument on the SPE, and on the host. */
  function SpeSize(k: Kind): (n: nat)
    ensures n == 4 || n == 8
  {
    if k == Same(true) then 8 else 4
  }

  function HostSize(k: Kind): (n: nat)
    ensures n == 4 || n == 8
  {
    if k == Same(false) then 4 else 8
  }

  predicate IsLong(l: P.Length) { l in {P.L, P.Z, P.T} }

  /** The argument converted, as the types of the standard come out on both sides: long,
      size_t and ptrdiff_t differ. */
  function ConvertedKind(l: P.Length, c: char): seq<Kind> {
    if P.IsInteger(c) then
      [if l in {P.LL, P.J} then Same(true) else if IsLong(l) then Widened(c == 'd' || c == 'i') else Same(false)]
    else if P.IsFloating(c) then [Same(true)]
    else match c
      case 'c' => [Same(false)]
      case 'p' => [Widened(false)]
      case 's' => [ToPlace]
      case 'n' => [if IsLong(l) then ToTemp else ToPlace]
      case _ => []
  }

  function StarKinds(v: P.Conversion): seq<Kind> {
    (if v.width.Star? then [Same(false)] else []) + (if v.precision.DotStar? then [Same(false)] else [])
  }

  function Kinds(v: P.Conversion): seq<Kind> { StarKinds(v) + ConvertedKind(v.length, v.c) }

  /** The argument the switch statement stores. */
  function SwitchKinds(long: nat, c: char): seq<Kind> {
    if P.IsInteger(c) then
      [if long == 2 then Same(true) else if long != 0 then Widened(c == 'd' || c == 'i') else Same(false)]
    else if P.IsFloating(c) then [Same(true)]
    else if c == 'c' then [Same(false)]
    else if c == 'p' then [Widened(false)]
    else if c == 's' then [ToPlace]
    else if c == 'n' then [if long == 1 then ToTemp else ToPlace]
    else []
  }

  lemma SwitchIsStandard(l: P.Length, c: char)
    ensures SwitchKinds(P.Longness(l), c) == ConvertedKind(l, c)
  {}

  // ---------- values ----------

  /** Where local store and the temporaries lie in the memory of the host. */
  datatype Host = Host(base: Addr64, temps: Addr64)

  /** A word as a long, or as an unsigned long. */
  function Widen(w: Word, signed: bool): (v: Addr64) {
    if signed && w >= 0x8000_0000 then w + 0xffff_ffff_0000_0000 else w
  }

  /** A number in two's complement, `half` being that of its sign bit. */
  function Signed(v: nat, half: nat): int { if v >= half then v - 2 * half else v }

  /** The number is the same, in two's complement or without sign. */
  lemma WidenKeepsValue(w: Word, signed: bool)
    ensures FromBE(BE(Widen(w, signed), 8)) == Widen(w, signed)
    ensures !signed ==> Widen(w, signed) == w
    ensures signed ==> Signed(Widen(w, signed), 0x8000_0000_0000_0000) == Signed(w, 0x8000_0000)
  {
    EightBytes(Widen(w, signed));
  }

  function WordOf(bytes: seq<Byte>): (w: Word)
    requires |bytes| == 4
  {
    FromBEBound(bytes);
    assert Pow256(4) == 256 * Pow256(3) == 0x1_0000 * Pow256(2) == 0x100_0000 * Pow256(1) == 0x1_0000_0000 * Pow256(0);
    FromBE(bytes)
  }

  /** The argument in slot a; t temporaries have been used before. */
  function Value(k: Kind, ls: seq<Byte>, a: Word, h: Host, t: nat): (r: seq<Byte>)
    requires |ls| == LS_SIZE && a % 16 == 0
    ensures |r| == HostSize(k)
  {
    var bytes := ls[Masked(a)..Masked(a) + SpeSize(k)];
    match k
    case Same(_) => bytes
    case Widened(signed) => BE(Widen(WordOf(bytes), signed), 8)
    case ToPlace => BE(h.base + WordOf(bytes) % LS_SIZE, 8)
    case ToTemp => BE(h.temps + 16 * t, 8)
  }

  function TempsIn(kinds: seq<Kind>): (n: nat)
    ensures n <= |kinds|
  {
    if |kinds| == 0 then 0
    else TempsIn(kinds[..|kinds| - 1]) + if kinds[|kinds| - 1].ToTemp? then 1 else 0
  }

  /** Argument k of a list of arguments. */
  function Expected(kinds: seq<Kind>, k: nat, ls: seq<Byte>, first: Word, caller: Word, h: Host): (r: seq<Byte>)
    requires |ls| == LS_SIZE && first % 16 == 0 && k < |kinds|
    ensures |r| == HostSize(kinds[k])
  {
    Value(kinds[k], ls, Slot(first, caller, k), h, TempsIn(kinds[..k]))
  }

  /** The bytes, the last ones of an element, are those of such an argument in slot a: the bytes of the SPE, the same
      number in 8 bytes, a pointer to the place in local store that the slot names, or one to
      temporary t, of 16 bytes each. */
  ghost predicate IsArgument(bytes: seq<Byte>, k: Kind, ls: seq<Byte>, a: Word, h: Host, t: nat)
    requires |ls| == LS_SIZE && a % 16 == 0
  {
    var at := a % 0x40000;
    && at + 8 <= |ls|
    && match k
       case Same(wide) => bytes == ls[at..at + if wide then 8 else 4]
       case Widened(signed) =>
         && |bytes| == 8
         && FromBE(bytes) == FromBE(ls[at..at + 4]) + if signed && ls[at] >= 0x80 then 0xffff_ffff_0000_0000 else 0
       case ToPlace =>
         && |bytes| == 8
         && (h.base + 0x40000 <= 0x1_0000_0000_0000_0000 ==> PointsTo(FromBE(bytes), h.base, FromBE(ls[at..at + 4])))
       case ToTemp =>
         && |bytes| == 8
         && (h.temps + 16 * t < 0x1_0000_0000_0000_0000 ==> FromBE(bytes) == h.temps + 16 * t)
  }

  lemma ValueIsArgument(k: Kind, ls: seq<Byte>, a: Word, h: Host, t: nat)
    requires |ls| == LS_SIZE && a % 16 == 0
    ensures IsArgument(Value(k, ls, a, h, t), k, ls, a, h, t)
  {
    hide BE, FromBE;
    assert Masked(a) == a % 0x40000;
    var bytes := ls[Masked(a)..Masked(a) + 4];
    var w := WordOf(bytes);
    BigEndian(bytes);
    match k
    case Same(_) =>
    case Widened(signed) => WidenKeepsValue(w, signed);
    case ToPlace =>
      if h.base + 0x40000 <= 0x1_0000_0000_0000_0000 {
        PlaceIs(h.base, w);
        EightBytes(h.base + w % LS_SIZE);
      }
    case ToTemp =>
      if h.temps + 16 * t < 0x1_0000_0000_0000_0000 { EightBytes(h.temps + 16 * t); }
  }

  lemma PlaceIs(base: nat, o: nat)
    ensures PointsTo(base + o % LS_SIZE, base, o)
  {
    assert o % 0x40000 == o - 0x40000 * (o / 0x40000);
    WholeTurns(o / 0x40000);
  }

  lemma EightBytes(v: nat)
    requires v < 0x1_0000_0000_0000_0000
    ensures FromBE(BE(v, 8)) == v
  {
    assert Pow256(4) == 256 * Pow256(3) == 0x1_0000 * Pow256(2) == 0x100_0000 * Pow256(1) == 0x1_0000_0000 * Pow256(0);
    assert Pow256(8) == 256 * Pow256(7) == 0x1_0000 * Pow256(6) == 0x100_0000 * Pow256(5) == 0x1_0000_0000 * Pow256(4);
    RoundTrip(v, 8);
  }

  /** Where in local store the temporaries are to be copied. */
  function Targets(kinds: seq<Kind>, ls: seq<Byte>, first: Word, caller: Word): (r: seq<nat>)
    requires |ls| == LS_SIZE && first % 16 == 0
    ensures |r| == TempsIn(kinds)
  {
    if |kinds| == 0 then []
    else
      var n := |kinds| - 1;
      Targets(kinds[..n], ls, first, caller) +
      if kinds[n].ToTemp? then [S.OffsetOf(ls, first, caller, n)] else []
  }

  /** va_arg on the 64-bit PowerPC. */
  function Read(e: Element, n: nat): (r: seq<Byte>)
    requires n == 4 || n == 8
    ensures |r| == n
  {
    e[8 - n..]
  }

  // ---------- the variables of one call ----------

  /** The elements are those of the arguments so far, and so are the temporaries. */
  ghost predicate Stored(vs: seq<Element>, ts: seq<S.Temp>, n: nat, kinds: seq<Kind>,
                         ls: seq<Byte>, first: Word, caller: Word, h: Host)
    requires |ls| == LS_SIZE && first % 16 == 0
  {
    && |kinds| <= |vs|
    && (forall k :: 0 <= k < |kinds| ==> Read(vs[k], HostSize(kinds[k])) == Expected(kinds, k, ls, first, caller, h))
    && S.Recorded(ts, n, Targets(kinds, ls, first, caller))
  }

  ghost predicate Storing(ls: array<Byte>, h: Host, vl: SpeVaList, vlist: array<Element>, temps: array<S.Temp>,
                          e: nat, n: nat, kinds: seq<Kind>, first: Word)
    reads ls, vl, vlist, temps
  {
    && ls.Length == LS_SIZE && first % 16 == 0 && vl.nextArg % 16 == 0
    && e == |kinds| && vl.nextArg == Slot(first, vl.callerStack, e)
    && Stored(vlist[..], temps[..], n, kinds, ls[..], first, vl.callerStack, h)
  }

  lemma NothingStored(ls: array<Byte>, h: Host, vl: SpeVaList, vlist: array<Element>, temps: array<S.Temp>)
    requires ls.Length == LS_SIZE && vl.nextArg % 16 == 0
    ensures Storing(ls, h, vl, vlist, temps, 0, 0, [], vl.nextArg)
  {}

  /** One more argument behind the others. */
  lemma OneStored(vs: seq<Element>, ts: seq<S.Temp>, n: nat, kinds: seq<Kind>, k: Kind, el: Element,
                  ls: seq<Byte>, first: Word, caller: Word, h: Host)
    requires |ls| == LS_SIZE && first % 16 == 0 && |kinds| < |vs| && n < |ts|
    requires Stored(vs, ts, n, kinds, ls, first, caller, h)
    requires Read(el, HostSize(k)) == Value(k, ls, Slot(first, caller, |kinds|), h, n)
    ensures var ts', n' :=
        if k.ToTemp? then ts[n := ts[n].(ptr := Some(S.OffsetOf(ls, first, caller, |kinds|)))] else ts,
        if k.ToTemp? then n + 1 else n;
      Stored(vs[|kinds| := el], ts', n', kinds + [k], ls, first, caller, h)
  {
    hide Read, Value, Slot, S.OffsetOf, Expected, Targets, S.Recorded;
    TargetsAppend(ts, n, kinds, k, ls, first, caller);
    ExpectedAppend(kinds, k, ls, first, caller, h);
    var more, vs' := kinds + [k], vs[|kinds| := el];
    CountTargets(ts, n, kinds, ls, first, caller);
    forall j | 0 <= j < |more| ensures Read(vs'[j], HostSize(more[j])) == Expected(more, j, ls, first, caller, h) {
      if j < |kinds| { assert more[j] == kinds[j]; }
    }
  }

  lemma CountTargets(ts: seq<S.Temp>, n: nat, kinds: seq<Kind>, ls: seq<Byte>, first: Word, caller: Word)
    requires |ls| == LS_SIZE && first % 16 == 0 && S.Recorded(ts, n, Targets(kinds, ls, first, caller))
    ensures n == TempsIn(kinds)
  {}

  lemma ExpectedAppend(kinds: seq<Kind>, k: Kind, ls: seq<Byte>, first: Word, caller: Word, h: Host)
    requires |ls| == LS_SIZE && first % 16 == 0
    ensures forall j :: 0 <= j < |kinds| ==>
      Expected(kinds + [k], j, ls, first, caller, h) == Expected(kinds, j, ls, first, caller, h)
    ensures Expected(kinds + [k], |kinds|, ls, first, caller, h) ==
      Value(k, ls, Slot(first, caller, |kinds|), h, TempsIn(kinds))
  {
    hide Value, Slot, TempsIn;
    assert (kinds + [k])[..|kinds|] == kinds;
    forall j | 0 <= j < |kinds|
      ensures Expected(kinds + [k], j, ls, first, caller, h) == Expected(kinds, j, ls, first, caller, h)
    {
      assert (kinds + [k])[..j] == kinds[..j] && (kinds + [k])[j] == kinds[j];
    }
  }

  /** A long that is to be stored takes one more temporary. */
  lemma TargetsAppend(ts: seq<S.Temp>, n: nat, kinds: seq<Kind>, k: Kind, ls: seq<Byte>, first: Word, caller: Word)
    requires |ls| == LS_SIZE && first % 16 == 0 && n < |ts|
    requires S.Recorded(ts, n, Targets(kinds, ls, first, caller))
    ensures var offset, targets := S.OffsetOf(ls, first, caller, |kinds|), Targets(kinds + [k], ls, first, caller);
      if k.ToTemp? then S.Recorded(ts[n := ts[n].(ptr := Some(offset))], n + 1, targets) else S.Recorded(ts, n, targets)
  {
    hide S.OffsetOf;
    assert (kinds + [k])[..|kinds|] == kinds;
  }

  // ---------- the code ----------

  /** __VA_LIST_PUT on the 64-bit PowerPC. */
  method VaListPut(vlist: array<Element>, e: nat, v: seq<Byte>) returns (e': nat)
    requires e < vlist.Length && (|v| == 4 || |v| == 8)
    modifies vlist
    ensures e' == e + 1 && Read(vlist[e], |v|) == v
    ensures vlist[..] == old(vlist[..])[e := vlist[e]]
  {
    vlist[e] := vlist[e][..8 - |v|] + v;
    e' := e + 1;
  }

  /** The next argument, as the host is to find it. */
  method Convert(k: Kind, ls: array<Byte>, h: Host, vl: SpeVaList, temps: array<S.Temp>, n: nat)
    returns (v: seq<Byte>, n': nat)
    requires ls.Length == LS_SIZE && vl.nextArg % 16 == 0 && n < temps.Length
    modifies vl, temps
    ensures v == Value(k, ls[..], old(vl.nextArg), h, n) && vl.nextArg == Advance(old(vl.nextArg), vl.callerStack)
    ensures k.ToTemp? ==>
      var at := Masked(old(vl.nextArg));
      && n' == n + 1
      && temps[..] == old(temps[..])[n := old(temps[n]).(ptr := Some(WordOf(ls[..][at..at + 4]) % LS_SIZE))]
    ensures !k.ToTemp? ==> n' == n && temps[..] == old(temps[..])
  {
    hide WordOf, Advance;
    ghost var a := vl.nextArg;
    n' := n;
    v := GetLsVarg(ls, vl, SpeSize(k));
    assert v == ls[..][Masked(a)..Masked(a) + SpeSize(k)];
    match k {
      case Same(_) =>
      case Widened(signed) => v := BE(Widen(WordOf(v), signed), 8);
      case ToPlace => v := BE(h.base + WordOf(v) % LS_SIZE, 8);
      case ToTemp =>
        temps[n] := temps[n].(ptr := Some(WordOf(v) % LS_SIZE));
        v := BE(h.temps + 16 * n, 8);
        n' := n + 1;
    }
  }

  lemma TargetIs(ls: seq<Byte>, first: Word, caller: Word, e: nat)
    requires |ls| == LS_SIZE && first % 16 == 0
    ensures var a := Masked(Slot(first, caller, e)); S.OffsetOf(ls, first, caller, e) == WordOf(ls[a..a + 4]) % LS_SIZE
  {}

  /** One argument from its slot to the va_list. */
  method PutArg(k: Kind, ls: array<Byte>, h: Host, vl: SpeVaList, vlist: array<Element>, temps: array<S.Temp>,
                e: nat, n: nat, ghost kinds: seq<Kind>, ghost first: Word)
    returns (e': nat, n': nat)
    requires Storing(ls, h, vl, vlist, temps, e, n, kinds, first) && e < vlist.Length && n < temps.Length
    modifies vl, vlist, temps
    ensures Storing(ls, h, vl, vlist, temps, e', n', kinds + [k], first)
    ensures e' == e + 1 && n' == if k.ToTemp? then n + 1 else n
  {
    hide Stored, Value, Read, WordOf, S.OffsetOf;
    ghost var vs, ts := vlist[..], temps[..];
    var v;
    v, n' := Convert(k, ls, h, vl, temps, n);
    e' := VaListPut(vlist, e, v);
    SlotStep(first, vl.callerStack, e);
    TargetIs(ls[..], first, vl.callerStack, e);
    OneStored(vs, ts, n, kinds, k, vlist[e], ls[..], first, vl.callerStack, h);
  }

  method SkipFieldWidth(f: string, p: nat, ls: array<Byte>, h: Host, vl: SpeVaList, vlist: array<Element>,
                        temps: array<S.Temp>, e: nat, n: nat, ghost kinds: seq<Kind>, ghost first: Word)
    returns (q: nat, e': nat, n': nat)
    requires p <= |f| && Storing(ls, h, vl, vlist, temps, e, n, kinds, first) && e < vlist.Length && n < temps.Length
    modifies vl, vlist, temps
    ensures q == WidthEnd(f, p)
    ensures Storing(ls, h, vl, vlist, temps, e', n', kinds + (if At(f, p) == '*' then [Same(false)] else []), first)
    ensures e' <= e + 1 && n' == n
  {
    q, e', n' := p, e, n;
    assert kinds + [] == kinds;
    if p < |f| && IsDigit(f[p]) {
      q := Skip(f, p, IsDigit);
    } else if At(f, p) == '*' {
      e', n' := PutArg(Same(false), ls, h, vl, vlist, temps, e, n, kinds, first);
      q := p + 1;
    }
  }

  method SkipPrecision(f: string, p: nat, ls: array<Byte>, h: Host, vl: SpeVaList, vlist: array<Element>,
                       temps: array<S.Temp>, e: nat, n: nat, ghost kinds: seq<Kind>, ghost first: Word)
    returns (q: nat, e': nat, n': nat)
    requires p <= |f| && Storing(ls, h, vl, vlist, temps, e, n, kinds, first) && e < vlist.Length && n < temps.Length
    modifies vl, vlist, temps
    ensures q == PrecisionEnd(f, p)
    ensures Storing(ls, h, vl, vlist, temps, e', n',
                    kinds + (if At(f, p) == '.' && At(f, p + 1) == '*' then [Same(false)] else []), first)
    ensures e' <= e + 1 && n' == n
  {
    q, e', n' := p, e, n;
    assert kinds + [] == kinds;
    if At(f, p) == '.' {
      q := p + 1;
      if q < |f| && IsDigit(f[q]) {
        q := Skip(f, q, IsDigit);
      } else if At(f, q) == '*' {
        e', n' := PutArg(Same(false), ls, h, vl, vlist, temps, e, n, kinds, first);
        q := q + 1;
      }
    }
  }

  /** The switch over the conversion character. */
  method PutConverted(c: char, long: nat, ls: array<Byte>, h: Host, vl: SpeVaList, vlist: array<Element>,
                      temps: array<S.Temp>, e: nat, n: nat, ghost kinds: seq<Kind>, ghost first: Word)
    returns (e': nat, n': nat)
    requires Storing(ls, h, vl, vlist, temps, e, n, kinds, first) && e < vlist.Length && n < temps.Length
    modifies vl, vlist, temps
    ensures Storing(ls, h, vl, vlist, temps, e', n', kinds + SwitchKinds(long, c), first)
    ensures e' <= e + 1
  {
    hide Storing;
    e', n' := e, n;
    if P.IsInteger(c) && long == 2 {
      e', n' := PutArg(Same(true), ls, h, vl, vlist, temps, e, n, kinds, first);
    } else if P.IsInteger(c) && long != 0 {
      e', n' := PutArg(Widened(c == 'd' || c == 'i'), ls, h, vl, vlist, temps, e, n, kinds, first);
    } else if P.IsInteger(c) || c == 'c' {
      e', n' := PutArg(Same(false), ls, h, vl, vlist, temps, e, n, kinds, first);
    } else if P.IsFloating(c) {
      e', n' := PutArg(Same(true), ls, h, vl, vlist, temps, e, n, kinds, first);
    } else if c == 'p' {
      e', n' := PutArg(Widened(false), ls, h, vl, vlist, temps, e, n, kinds, first);
    } else if c == 's' {
      e', n' := PutArg(ToPlace, ls, h, vl, vlist, temps, e, n, kinds, first);
    } else if c == 'n' {
      e', n' := PutArg(if long == 1 then ToTemp else ToPlace, ls, h, vl, vlist, temps, e, n, kinds, first);
    } else {
      assert kinds + [] == kinds;
    }
  }

  /** Flags, width and precision. */
  method ParseStars(f: string, p: nat, ghost s: nat, ghost v: P.Conversion, ls: array<Byte>, h: Host, vl: SpeVaList,
                    vlist: array<Element>, temps: array<S.Temp>, e: nat, n: nat, ghost kinds: seq<Kind>,
                    ghost first: Word)
    returns (q: nat, e': nat, n': nat)
    requires p == s + 1 && P.Stands(f, s, v) && P.ValidConversion(v)
    requires Storing(ls, h, vl, vlist, temps, e, n, kinds, first) && e + 2 <= vlist.Length && n < temps.Length
    modifies vl, vlist, temps
    ensures q == s + P.LengthAt(v)
    ensures Storing(ls, h, vl, vlist, temps, e', n', kinds + StarKinds(v), first)
    ensures e' <= e + 2 && n' == n
  {
    hide *;
    P.ConversionScanned(f, s, v);
    SplitKinds(kinds, v);
    q := Skip(f, p, IsFlag);
    q, e', n' := SkipFieldWidth(f, q, ls, h, vl, vlist, temps, e, n, kinds, first);
    ghost var k1 := kinds + if v.width.Star? then [Same(false)] else [];
    q, e', n' := SkipPrecision(f, q, ls, h, vl, vlist, temps, e', n', k1, first);
  }

  lemma SplitKinds(kinds: seq<Kind>, v: P.Conversion)
    ensures kinds + StarKinds(v) ==
      kinds + (if v.width.Star? then [Same(false)] else []) + (if v.precision.DotStar? then [Same(false)] else [])
    ensures kinds + Kinds(v) == kinds + StarKinds(v) + ConvertedKind(v.length, v.c)
  {}

  lemma LongnessScanned(f: string, s: nat, v: P.Conversion)
    requires P.Stands(f, s, v) && P.ValidConversion(v)
    ensures SpanEnd(f, s + P.LengthAt(v), IsLength) == s + P.CharAt(v) && f[s + P.CharAt(v)] == v.c
    ensures SwitchKinds(LongOf(f, s + P.LengthAt(v), s + P.CharAt(v), 0), v.c) == ConvertedKind(v.length, v.c)
  {
    hide Matches, SpanEnd, LongOf;
    P.HeadOfLength(f, s, v);
    P.LengthStands(f, s + P.LengthAt(v), v.length);
    SwitchIsStandard(v.length, v.c);
  }

  /** The body of the loop: one conversion. */
  method ParseConversion(f: string, p: nat, ghost s: nat, ghost v: P.Conversion, ls: array<Byte>, h: Host,
                         vl: SpeVaList, vlist: array<Element>, temps: array<S.Temp>, e: nat, n: nat,
                         ghost kinds: seq<Kind>, ghost first: Word)
    returns (q: nat, e': nat, n': nat)
    requires p == s + 1 && P.Stands(f, s, v) && P.ValidConversion(v) && s + P.CharAt(v) < |f|
    requires Storing(ls, h, vl, vlist, temps, e, n, kinds, first) && e + 3 <= vlist.Length && n < temps.Length
    modifies vl, vlist, temps
    ensures q == s + P.CharAt(v)
    ensures Storing(ls, h, vl, vlist, temps, e', n', kinds + Kinds(v), first)
    ensures e' <= e + 3
  {
    hide *;
    SplitKinds(kinds, v);
    q, e', n' := ParseStars(f, p, s, v, ls, h, vl, vlist, temps, e, n, kinds, first);
    LongnessScanned(f, s, v);
    var long: nat;
    q, long := SkipLength(f, q);
    e', n' := PutConverted(f[q], long, ls, h, vl, vlist, temps, e', n', kinds + StarKinds(v), first);
  }

  lemma TempsWithin(ls: array<Byte>, h: Host, vl: SpeVaList, vlist: array<Element>, temps: array<S.Temp>,
                    e: nat, n: nat, kinds: seq<Kind>, first: Word)
    requires Storing(ls, h, vl, vlist, temps, e, n, kinds, first)
    ensures n <= e <= vlist.Length
  {}

  /** __parse_printf_format: for every format the list holds what the host's printf is to
      find, and the temporaries their targets, with a null pointer behind them. */
  method ParsePrintfFormat(f: string, ghost ds: seq<Directive<P.Conversion>>, ghost tail: string, nr: nat,
                           ls: array<Byte>, h: Host, vl: SpeVaList, vlist: array<Element>, temps: array<S.Temp>)
    returns (rc: int, e: nat, n: nat)
    requires ValidFormat(P.ValidConversion, ds, tail) && f == Render(P.Text, ds, tail) && nr == 3 * Percents(f)
    requires ls.Length == LS_SIZE && vl.nextArg % 16 == 0
    requires vlist.Length == nr + 1 && temps.Length == nr + 1
    modifies vl, vlist, temps
    ensures rc == 0 && n <= e <= nr
    ensures Storing(ls, h, vl, vlist, temps, e, n, Gather(Kinds, ds), old(vl.nextArg)) && temps[n].ptr.None?
  {
    P.TextHead();
    hide *;
    ghost var first, k := vl.nextArg, 0;
    PercentsCover(P.Text, ds, tail);
    WholeFormat(P.Text, Kinds, f, ds, tail);
    NothingStored(ls, h, vl, vlist, temps);
    var p: nat, left: nat := 0, nr;
    e, n := 0, 0;
    while left > 0 && p < |f|
      invariant p <= |f| && k <= |ds| && left == nr - k
      invariant Follows(P.Text, f, p, ds[k..], tail)
      invariant Storing(ls, h, vl, vlist, temps, e, n, Gather(Kinds, ds[..k]), first)
      invariant e <= 3 * k
      decreases left
    {
      var q := Find(f, '%', p);
      P.NextConversion(f, p, ds, k, tail);
      if q == |f| { break; }
      GatherStep(Kinds, ds, k);
      TempsWithin(ls, h, vl, vlist, temps, e, n, Gather(Kinds, ds[..k]), first);
      p := q + 1;
      left := left - 1;
      p, e, n := ParseConversion(f, p, q, ds[k].conv, ls, h, vl, vlist, temps, e, n, Gather(Kinds, ds[..k]), first);
      p := p + 1;
      k := k + 1;
    }
    P.NextConversion(f, p, ds, k, tail);
    TempsWithin(ls, h, vl, vlist, temps, e, n, Gather(Kinds, ds), first);
    EndOfTemps(ls, h, vl, vlist, temps, e, n, Gather(Kinds, ds), first);
    rc := 0;
  }

  /** The null pointer behind the temporaries. */
  method EndOfTemps(ls: array<Byte>, h: Host, vl: SpeVaList, vlist: array<Element>, temps: array<S.Temp>,
                    e: nat, n: nat, ghost kinds: seq<Kind>, ghost first: Word)
    requires Storing(ls, h, vl, vlist, temps, e, n, kinds, first) && n < temps.Length
    modifies temps
    ensures Storing(ls, h, vl, vlist, temps, e, n, kinds, first) && temps[n].ptr.None?
  {
    hide S.Recorded, Expected, Targets, S.SameValues;
    S.EndTemps(temps, n, Targets(kinds, ls[..], first, vl.callerStack));
  }

  /** Estimate, allocation and parse: va_arg, for the types that section 7.19.6.1 of
      ISO/IEC 9899:1999 gives to a host with 64-bit longs, finds every argument of the SPE
      with its value, a long %n finds a temporary, and the lists are long enough. */
  method MarshalPrintf(f: string, ghost ds: seq<Directive<P.Conversion>>, ghost tail: string,
                       ls: array<Byte>, h: Host, vl: SpeVaList)
    returns (rc: int, vlist: array<Element>, temps: array<S.Temp>, e: nat, n: nat)
    requires ValidFormat(P.ValidConversion, ds, tail) && f == Render(P.Text, ds, tail) && CString(f)
    requires ls.Length == LS_SIZE && vl.nextArg % 16 == 0
    modifies vl
    ensures rc == 0 && e == |Gather(Kinds, ds)| < vlist.Length && n < temps.Length
    ensures var kinds := Gather(Kinds, ds);
      && (forall k :: 0 <= k < e ==>
           Read(vlist[k], HostSize(kinds[k])) == Expected(kinds, k, ls[..], old(vl.nextArg), vl.callerStack, h))
      && (forall k :: 0 <= k < e ==>
           IsArgument(vlist[k][8 - HostSize(kinds[k])..], kinds[k], ls[..], Slot(old(vl.nextArg), vl.callerStack, k), h,
                      TempsIn(kinds[..k])))
      && S.Recorded(temps[..], n, Targets(kinds, ls[..], old(vl.nextArg), vl.callerStack)) && temps[n].ptr.None?
  {
    hide Render, ValidFormat, Percents, Read, Expected, Targets, S.Recorded;
    var nr := NrFormatArgs(f);
    vlist := new Element[nr + 1](_ => [0, 0, 0, 0, 0, 0, 0, 0]);
    temps := new S.Temp[nr + 1](_ => S.Temp(0, None));
    rc, e, n := ParsePrintfFormat(f, ds, tail, nr, ls, h, vl, vlist, temps);
    ReadsArguments(vlist[..], Gather(Kinds, ds), ls[..], old(vl.nextArg), vl.callerStack, h);
  }

  lemma ReadsArguments(vs: seq<Element>, kinds: seq<Kind>, ls: seq<Byte>, first: Word, caller: Word, h: Host)
    requires |ls| == LS_SIZE && first % 16 == 0 && |kinds| <= |vs|
    requires forall k :: 0 <= k < |kinds| ==>
      Read(vs[k], HostSize(kinds[k])) == Expected(kinds, k, ls, first, caller, h)
    ensures forall k :: 0 <= k < |kinds| ==>
      IsArgument(vs[k][8 - HostSize(kinds[k])..], kinds[k], ls, Slot(first, caller, k), h, TempsIn(kinds[..k]))
  {
    hide Value, IsArgument, Slot;
    forall k | 0 <= k < |kinds|
      ensures IsArgument(vs[k][8 - HostSize(kinds[k])..], kinds[k], ls, Slot(first, caller, k), h, TempsIn(kinds[..k]))
    {
      ValueIsArgument(kinds[k], ls, Slot(first, caller, k), h, TempsIn(kinds[..k]));
    }
  }
}
