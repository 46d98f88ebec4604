/** Moving the variable arguments of an SPE call into a PowerPC va_list
    (spebase/default_c99_handler.c, lines 147-210).

    The SPE passes each argument in a 16-byte slot of its stack; after the slots of the
    register save area come 32 bytes of the caller's frame that hold no argument.  The
    host's printf and scanf read the arguments from memory one after the other, each
    aligned to its own size. */
module VarArgs {
  import opened Bytes
  import opened Common

  /** The argument types of ISO/IEC 9899:1999, sections 7.19.6.1 and 7.19.6.2, as far as
      the 32-bit PowerPC distinguishes them; an Address is an SPE address passed on as a
      number, a Pointer is one turned into a host pointer. */
  datatype CType = Int | LongLong | Double | Address | Pointer

  function Size(t: CType): (n: nat)
    ensures n == 4 || n == 8
  {
    match t
    case LongLong => 8
    case Double => 8
    case _ => 4
  }

  // ---------- where the SPE keeps the arguments ----------

  function Masked(a: Word): (r: nat)
    ensures r < LS_SIZE
    ensures a % 16 == 0 ==> r + 16 <= LS_SIZE
  {
    assert LS_SIZE == 16 * 0x4000;
    a % LS_SIZE
  }

  lemma WrapKeeps(n: nat, slots: nat)
    ensures n % 16 == 0 ==> (n + 16 * slots) % 0x1_0000_0000 % 16 == 0
  {
    var a := n + 16 * slots;
    if n % 16 == 0 { assert a % 0x1_0000_0000 == 16 * (n / 16 + slots - 0x1000_0000 * (a / 0x1_0000_0000)); }
  }

  /** The slot after `next`: 16 bytes on, or past the caller's frame. */
  function Advance(next: Word, caller: Word): (r: Word)
    ensures next % 16 == 0 ==> r % 16 == 0
  {
    hide Masked;
    WrapKeeps(next, 1);
    var n := (next + 16) % 0x1_0000_0000;
    WrapKeeps(n, 2);
    if Masked(n) == Masked(caller) then (n + 32) % 0x1_0000_0000 else n
  }

  /** The slot of the k-th argument. */
  function Slot(next: Word, caller: Word, k: nat): (r: Word)
    ensures next % 16 == 0 ==> r % 16 == 0
  {
    if k == 0 then next else Advance(Slot(next, caller, k - 1), caller)
  }

  /** How far ahead of the first slot the caller's frame begins; a whole turn around local
      store if the two coincide. */
  function Ahead(next: Word, caller: Word): (d: nat)
    ensures 0 < d <= LS_SIZE && (next + d) % LS_SIZE == caller % LS_SIZE
  {
    var d := (caller - next) % LS_SIZE;
    if d == 0 then LS_SIZE else d
  }

  lemma WrapAdd(x: nat, n: nat)
    ensures (x % 0x1_0000_0000 + n) % 0x1_0000_0000 == (x + n) % 0x1_0000_0000
  {}

  lemma WrapMask(x: nat)
    ensures x % 0x1_0000_0000 % LS_SIZE == x % LS_SIZE
  {
    var q := x / 0x1_0000_0000;
    assert x == x % 0x1_0000_0000 + LS_SIZE * (0x4000 * q);
    AddTurns(x % 0x1_0000_0000, 0x4000 * q);
  }

  lemma AddTurns(x: int, q: int)
    ensures (x + LS_SIZE * q) % LS_SIZE == x % LS_SIZE
  {}

  /** Two addresses less than a turn apart coincide in local store only if they are equal. */
  lemma Coincide(a: int, b: int)
    requires -LS_SIZE < a - b < LS_SIZE
    ensures a % LS_SIZE == b % LS_SIZE <==> a == b
  {
    assert a == a / LS_SIZE * LS_SIZE + a % LS_SIZE;
    assert b == b / LS_SIZE * LS_SIZE + b % LS_SIZE;
  }

  /** The k-th argument is in slot 16 * k, and 32 bytes further once the caller's frame is
      reached, for as many arguments as fit between two passes of that frame. */
  function Offset(d: nat, k: nat): nat {
    16 * k + if 16 * k < d then 0 else 32
  }

  lemma {:induction false} SlotIs(next: Word, caller: Word, k: nat)
    requires (caller - next) % 16 == 0
    requires 16 * k + 32 < Ahead(next, caller) + LS_SIZE
    ensures Slot(next, caller, k) == (next + Offset(Ahead(next, caller), k)) % 0x1_0000_0000
  {
    if k > 0 {
      SlotIs(next, caller, k - 1);
      var d := Ahead(next, caller);
      AheadAligned(next, caller);
      OffsetStep(d, k);
      AdvanceIs(next, caller, Offset(d, k - 1));
    }
  }

  lemma OffsetStep(d: nat, k: nat)
    requires d % 16 == 0 && d > 0 && k > 0
    ensures Offset(d, k) == Offset(d, k - 1) + if Offset(d, k - 1) + 16 == d then 48 else 16
    ensures Offset(d, k - 1) + 16 <= 16 * k + 32
  {
    assert d == 16 * (d / 16);
  }

  /** One step, less than a turn around local store behind the frame or ahead of it. */
  lemma AdvanceIs(next: Word, caller: Word, i: nat)
    requires i + 16 < Ahead(next, caller) + LS_SIZE
    ensures Advance((next + i) % 0x1_0000_0000, caller) ==
      (next + i + if i + 16 == Ahead(next, caller) then 48 else 16) % 0x1_0000_0000
  {
    WrapAdd(next + i, 16);
    WrapAdd(next + i + 16, 32);
    WrapMask(next + i + 16);
    Coincide(next + i + 16, next + Ahead(next, caller));
  }

  lemma AheadAligned(next: Word, caller: Word)
    requires (caller - next) % 16 == 0
    ensures Ahead(next, caller) % 16 == 0
  {
    var q, m := (caller - next) / LS_SIZE, (caller - next) / 16;
    assert caller - next == 16 * m;
    assert (caller - next) % LS_SIZE == 16 * (m - 0x4000 * q);
    SixteenTimes(m - 0x4000 * q);
  }

  lemma SixteenTimes(m: int)
    ensures (16 * m) % 16 == 0
  {}

  /** A frame that does not start on a slot of the sequence is never passed. */
  lemma {:induction false} SlotUnbroken(next: Word, caller: Word, k: nat)
    requires (caller - next) % 16 != 0
    ensures Slot(next, caller, k) == (next + 16 * k) % 0x1_0000_0000
  {
    if k > 0 {
      SlotUnbroken(next, caller, k - 1);
      WrapAdd(next + 16 * (k - 1), 16);
      WrapMask(next + 16 * k);
      if (next + 16 * k) % LS_SIZE == Masked(caller) { SameSlotGrid(next, caller, k); }
    }
  }

  lemma SameSlotGrid(next: Word, caller: Word, k: nat)
    requires (next + 16 * k) % LS_SIZE == caller % LS_SIZE
    ensures (caller - next) % 16 == 0
  {
    var q := (next + 16 * k) / LS_SIZE - caller / LS_SIZE;
    assert caller - next == 16 * (k - 0x4000 * q);
  }

  // ---------- values ----------

  /** The bytes the host is to find for an argument of type t in slot a: the slot's own,
      or the host address of the place in local store that it names. */
  function Value(ls: seq<Byte>, base: Word, t: CType, a: Word): (r: seq<Byte>)
    requires |ls| == LS_SIZE && a % 16 == 0
    ensures |r| == Size(t)
  {
    var bytes := ls[Masked(a)..Masked(a) + Size(t)];
    if t.Pointer? then BE(HostAddress(base, FromBE(bytes)), 4) else bytes
  }

  function HostAddress(base: Word, offset: nat): Word {
    (base + offset % LS_SIZE) % 0x1_0000_0000
  }

  /** The bytes are those of an argument of type t in slot a: 4 or 8 bytes from there, or a
      pointer to the place in local store at `base` that the slot names. */
  ghost predicate IsArgument(bytes: seq<Byte>, t: CType, ls: seq<Byte>, base: Word, a: Word)
    requires |ls| == LS_SIZE && a % 16 == 0
  {
    var at := a % 0x40000;
    match t
    case Int => at + 4 <= |ls| && bytes == ls[at..at + 4]
    case Address => at + 4 <= |ls| && bytes == ls[at..at + 4]
    case LongLong => at + 8 <= |ls| && bytes == ls[at..at + 8]
    case Double => at + 8 <= |ls| && bytes == ls[at..at + 8]
    case Pointer =>
      at + 4 <= |ls| && |bytes| == 4 &&
      (base + 0x40000 <= 0x1_0000_0000 ==> PointsTo(FromBE(bytes), base, FromBE(ls[at..at + 4])))
  }

  /** The host's pointer lies in the mapped local store, as far behind its start as the SPE's
      address o behind a multiple of its size. */
  predicate PointsTo(p: int, base: nat, o: nat) {
    && base <= p < base + 0x40000
    && (o - (p - base)) % 0x40000 == 0
    && (o < 0x40000 ==> p == base + o)
  }

  lemma ValueIsArgument(ls: seq<Byte>, base: Word, t: CType, a: Word)
    requires |ls| == LS_SIZE && a % 16 == 0
    ensures IsArgument(Value(ls, base, t, a), t, ls, base, a)
  {
    hide BE, FromBE;
    assert Masked(a) == a % 0x40000;
    if t.Pointer? {
      var o := FromBE(ls[Masked(a)..Masked(a) + 4]);
      WordRoundTrip(HostAddress(base, o));
      if base + 0x40000 <= 0x1_0000_0000 { HostAddressPoints(base, o); }
    }
  }

  lemma HostAddressPoints(base: Word, o: nat)
    requires base + 0x40000 <= 0x1_0000_0000
    ensures PointsTo(HostAddress(base, o), base, o)
  {
    var q := o / 0x40000;
    assert o % 0x40000 == o - 0x40000 * q;
    assert HostAddress(base, o) == base + o % 0x40000;
    WholeTurns(q);
  }

  lemma WholeTurns(q: int)
    ensures (0x40000 * q) % 0x40000 == 0
  {}

  /** A host that follows the pointer into a memory with local store at `base` finds the
      bytes the SPE means; and what is in two places has two pointers. */
  lemma PointerFollowed(mem: nat -> Byte, ls: seq<Byte>, base: Word, p: int, o: nat, i: nat)
    requires |ls| == 0x40000 && forall j :: 0 <= j < |ls| ==> mem(base + j) == ls[j]
    requires PointsTo(p, base, o) && o + i < |ls|
    ensures p >= 0 && mem(p + i) == ls[o + i]
  {
    assert p + i == base + (o + i);
  }

  lemma PointersDiffer(base: Word, p: int, o: nat, p': int, o': nat)
    requires PointsTo(p, base, o) && PointsTo(p', base, o') && o < 0x40000 && o' < 0x40000
    ensures p == p' <==> o == o'
  {}

  /** Every argument of a list is what it ought to be. */
  ghost predicate AreArguments(values: seq<seq<Byte>>, types: seq<CType>, ls: seq<Byte>, base: Word,
                               first: Word, caller: Word)
    requires |ls| == LS_SIZE && first % 16 == 0
  {
    && |values| == |types|
    && forall k :: 0 <= k < |types| ==> IsArgument(values[k], types[k], ls, base, Slot(first, caller, k))
  }

  /** What a host finds that follows the pointer of argument k to byte i. */
  lemma ArgumentFollowed(mem: nat -> Byte, values: seq<seq<Byte>>, types: seq<CType>, ls: seq<Byte>, base: Word,
                         first: Word, caller: Word, k: nat, i: nat)
    requires |ls| == LS_SIZE && first % 16 == 0 && AreArguments(values, types, ls, base, first, caller)
    requires base + 0x40000 <= 0x1_0000_0000 && forall j :: 0 <= j < |ls| ==> mem(base + j) == ls[j]
    requires k < |types| && types[k].Pointer?
    requires var at := Slot(first, caller, k) % 0x40000; at + 4 <= |ls| && FromBE(ls[at..at + 4]) + i < 0x40000
    ensures var at := Slot(first, caller, k) % 0x40000; var o := FromBE(ls[at..at + 4]);
      mem(FromBE(values[k]) + i) == ls[o + i]
  {
    hide FromBE, Slot;
    var at := Slot(first, caller, k) % 0x40000;
    assert IsArgument(values[k], types[k], ls, base, Slot(first, caller, k));
    PointerFollowed(mem, ls, base, FromBE(values[k]), FromBE(ls[at..at + 4]), i);
  }

  lemma ExpectedAreArguments(ls: seq<Byte>, base: Word, first: Word, caller: Word, types: seq<CType>)
    requires |ls| == LS_SIZE && first % 16 == 0
    ensures AreArguments(Expected(ls, base, first, caller, types), types, ls, base, first, caller)
  {
    hide Value, IsArgument, Slot;
    forall k | 0 <= k < |types|
      ensures IsArgument(Expected(ls, base, first, caller, types)[k], types[k], ls, base, Slot(first, caller, k))
    {
      ValueIsArgument(ls, base, types[k], Slot(first, caller, k));
    }
  }

  function Expected(ls: seq<Byte>, base: Word, next: Word, caller: Word, types: seq<CType>): (r: seq<seq<Byte>>)
    requires |ls| == LS_SIZE && next % 16 == 0
    ensures |r| == |types|
  {
    seq(|types|, k requires 0 <= k < |types| => Value(ls, base, types[k], Slot(next, caller, k)))
  }

  // ---------- the va_list ----------

  /** A position of the va_list, rounded up to a multiple of n.  Every position the code
      reaches is a multiple of 4. */
  function Align(cur: nat, n: nat): (r: nat)
    requires n == 4 || n == 8
    ensures cur <= r < cur + n && (cur % 4 == 0 ==> r <= cur + 4)
  {
    if n == 4 then (if cur % 4 == 0 then cur else cur + (4 - cur % 4))
    else (if cur % 8 == 0 then cur else cur + (8 - cur % 8))
  }

  lemma AlignIs(cur: nat, n: nat)
    requires cur % 4 == 0 && (n == 4 || n == 8)
    ensures Align(cur, n) % 4 == 0 && (n == 4 ==> Align(cur, n) == cur)
    ensures n == 8 ==> Align(cur, n) == (cur + 7) / 8 * 8
  {
    hide Align;
    if n == 4 { AlignFour(cur); }
    if n == 8 {
      var m, r := cur / 8, cur % 8;
      Fours(m, r);
      Eights(m, r);
      AlignEight(m, r);
    }
  }

  lemma AlignFour(cur: nat)
    requires cur % 4 == 0
    ensures Align(cur, 4) == cur
  {}

  lemma Fours(m: nat, r: nat)
    requires (8 * m + r) % 4 == 0 && r < 8
    ensures r == 0 || r == 4
  {
    assert r == 4 * ((8 * m + r) / 4 - 2 * m);
  }

  lemma Eights(m: nat, r: nat)
    requires r == 0 || r == 4
    ensures (8 * m + r) % 8 == r && (8 * m + r + 7) / 8 == m + r / 4
  {}

  lemma AlignEight(m: nat, r: nat)
    requires r == 0 || r == 4
    ensures Align(8 * m + r, 8) == 8 * (m + r / 4)
    ensures (8 * (m + r / 4)) % 4 == 0
  {
    Eights(m, r);
  }

  /** The position behind one more argument. */
  function Past(cur: nat, t: CType): (r: nat)
    ensures r == Align(cur, Size(t)) + Size(t)
  {
    Align(cur, Size(t)) + Size(t)
  }

  function End(cur: nat, types: seq<CType>): (r: nat)
    ensures r >= cur
    decreases types
  {
    if |types| == 0 then cur else End(Past(cur, types[0]), types[1..])
  }

  /** A va_arg reader that takes all its arguments from memory: one value a type, each at
      the next address aligned to its size. */
  function ReadAll(buf: seq<Byte>, cur: nat, types: seq<CType>): (r: seq<seq<Byte>>)
    requires End(cur, types) <= |buf|
    ensures |r| == |types|
    decreases types
  {
    if |types| == 0 then []
    else
      var t := types[0];
      [buf[Align(cur, Size(t))..Past(cur, t)]] + ReadAll(buf, Past(cur, t), types[1..])
  }

  lemma {:induction false} EndAppend(cur: nat, types: seq<CType>, t: CType)
    ensures End(cur, types + [t]) == Past(End(cur, types), t)
    decreases types
  {
    if |types| == 0 {
      assert types + [t] == [t];
    } else {
      assert (types + [t])[1..] == types[1..] + [t];
      EndAppend(Past(cur, types[0]), types[1..], t);
    }
  }

  /** Storing one more argument behind the others adds its value and disturbs none. */
  lemma {:induction false} ReadAppend(buf: seq<Byte>, buf': seq<Byte>, cur: nat, types: seq<CType>, t: CType)
    requires |buf| == |buf'| && Past(End(cur, types), t) <= |buf|
    requires buf'[..End(cur, types)] == buf[..End(cur, types)]
    ensures End(cur, types + [t]) == Past(End(cur, types), t)
    ensures ReadAll(buf', cur, types + [t]) ==
      ReadAll(buf, cur, types) + [buf'[Align(End(cur, types), Size(t))..Past(End(cur, types), t)]]
    decreases types
  {
    hide Align, Past, ReadAll;
    EndAppend(cur, types, t);
    NothingRead(buf, cur);
    if |types| == 0 {
      assert types == [] && types + [t] == [t] + [];
      ReadFirst(buf', cur, t, []);
      NothingRead(buf', Past(cur, t));
    } else {
      var e, u, q, rest := End(cur, types), types[0], Past(cur, types[0]), types[1..];
      assert types + [t] == [u] + (rest + [t]) && types == [u] + rest;
      ReadAppend(buf, buf', q, rest, t);
      ReadFirst(buf, cur, u, rest);
      ReadFirst(buf', cur, u, rest + [t]);
      SamePart(buf, buf', e, Align(cur, Size(u)), q);
    }
  }

  lemma NothingRead(buf: seq<Byte>, cur: nat)
    requires cur <= |buf|
    ensures End(cur, []) == cur && ReadAll(buf, cur, []) == []
  {}

  lemma ReadFirst(buf: seq<Byte>, cur: nat, t: CType, rest: seq<CType>)
    requires End(cur, [t] + rest) <= |buf|
    ensures End(cur, [t] + rest) == End(Past(cur, t), rest)
    ensures Align(cur, Size(t)) <= Past(cur, t) <= |buf|
    ensures ReadAll(buf, cur, [t] + rest) == [buf[Align(cur, Size(t))..Past(cur, t)]] + ReadAll(buf, Past(cur, t), rest)
  {
    assert ([t] + rest)[1..] == rest;
  }

  lemma SamePart(b: seq<Byte>, b': seq<Byte>, e: nat, i: nat, j: nat)
    requires i <= j <= e <= |b| && e <= |b'| && b'[..e] == b[..e]
    ensures b'[i..j] == b[i..j]
  {
    assert b'[i..j] == b'[..e][i..j];
    assert b[i..j] == b[..e][i..j];
  }

  /** The state in the middle of a call: the arguments of the given types are stored from
      the start of `buf` up to `cur`, and `next` is the slot behind them. */
  ghost predicate Marshalled(buf: seq<Byte>, cur: nat, next: Word, types: seq<CType>,
                             ls: seq<Byte>, base: Word, first: Word, caller: Word)
  {
    && |ls| == LS_SIZE && first % 16 == 0
    && cur == End(0, types) <= |buf| && cur % 4 == 0
    && next == Slot(first, caller, |types|)
    && ReadAll(buf, 0, types) == Expected(ls, base, first, caller, types)
  }

  class SpeVaList {
    var nextArg: Word
    const callerStack: Word

    constructor (next: Word, caller: Word)
      ensures nextArg == next && callerStack == caller
    {
      nextArg, callerStack := next, caller;
    }
  }

  /** GET_LS_VARG for a variable of n bytes. */
  method GetLsVarg(ls: array<Byte>, vl: SpeVaList, n: nat) returns (v: seq<Byte>)
    requires ls.Length == LS_SIZE && vl.nextArg % 16 == 0 && n <= 16
    modifies vl
    ensures v == ls[Masked(old(vl.nextArg))..Masked(old(vl.nextArg)) + n]
    ensures vl.nextArg == Advance(old(vl.nextArg), vl.callerStack)
  {
    v := ls[Masked(vl.nextArg)..Masked(vl.nextArg) + n];
    vl.nextArg := (vl.nextArg + 16) % 0x1_0000_0000;
    if Masked(vl.nextArg) == Masked(vl.callerStack) {
      vl.nextArg := (vl.nextArg + 32) % 0x1_0000_0000;
    }
  }

  /** __VA_LIST_PUT on the 32-bit PowerPC. */
  method VaListPut(buf: array<Byte>, cur: nat, v: seq<Byte>) returns (cur': nat)
    requires |v| == 4 || |v| == 8
    requires Align(cur, |v|) + |v| <= buf.Length
    modifies buf
    ensures cur' == Align(cur, |v|) + |v|
    ensures buf[..] == old(buf[..])[..Align(cur, |v|)] + v + old(buf[..])[cur'..]
    ensures buf[..cur] == old(buf[..cur]) && buf[Align(cur, |v|)..cur'] == v
  {
    var a := Align(cur, |v|);
    CopyIn(buf, a, v);
    cur' := a + |v|;
  }

  lemma MarshalledPut(buf: seq<Byte>, buf': seq<Byte>, cur: nat, next: Word, types: seq<CType>, t: CType,
                      ls: seq<Byte>, base: Word, first: Word, caller: Word)
    requires Marshalled(buf, cur, next, types, ls, base, first, caller)
    requires |buf'| == |buf| && Past(cur, t) <= |buf|
    requires buf'[..cur] == buf[..cur]
    requires buf'[Align(cur, Size(t))..Past(cur, t)] == Value(ls, base, t, next)
    ensures Marshalled(buf', Past(cur, t), Advance(next, caller), types + [t], ls, base, first, caller)
    ensures Past(cur, t) <= cur + 4 + Size(t) && (Size(t) == 4 ==> Past(cur, t) == cur + 4)
  {
    hide Align, Value, ReadAll, Expected, Advance, Slot, End;
    AlignIs(cur, Size(t));
    SlotStep(first, caller, |types|);
    ReadAppend(buf, buf', 0, types, t);
    ExpectedAppend(ls, base, first, caller, types, t);
  }

  lemma SlotStep(next: Word, caller: Word, k: nat)
    ensures Slot(next, caller, k + 1) == Advance(Slot(next, caller, k), caller)
  {}

  lemma ExpectedAppend(ls: seq<Byte>, base: Word, next: Word, caller: Word, types: seq<CType>, t: CType)
    requires |ls| == LS_SIZE && next % 16 == 0
    ensures Expected(ls, base, next, caller, types + [t]) ==
      Expected(ls, base, next, caller, types) + [Value(ls, base, t, Slot(next, caller, |types|))]
  {
    hide Value, Slot;
    var e, r := Expected(ls, base, next, caller, types + [t]), Expected(ls, base, next, caller, types);
    assert |e| == |r| + 1 && e[|r|] == Value(ls, base, t, Slot(next, caller, |types|));
    forall k | 0 <= k < |r| ensures e[k] == r[k] {
      assert (types + [t])[k] == types[k];
    }
  }

  /** The value of the next argument, an address in local store turned into a pointer. */
  method GetValue(ls: array<Byte>, base: Word, vl: SpeVaList, t: CType) returns (v: seq<Byte>)
    requires ls.Length == LS_SIZE && vl.nextArg % 16 == 0
    modifies vl
    ensures v == Value(ls[..], base, t, old(vl.nextArg)) && |v| == Size(t)
    ensures vl.nextArg == Advance(old(vl.nextArg), vl.callerStack)
  {
    v := GetLsVarg(ls, vl, Size(t));
    assert v == ls[..][Masked(old(vl.nextArg))..Masked(old(vl.nextArg)) + Size(t)];
    if t.Pointer? {
      v := BE(HostAddress(base, FromBE(v)), 4);
    }
  }

  /** One argument from its slot to the va_list. */
  method PutArg(ls: array<Byte>, base: Word, vl: SpeVaList, buf: array<Byte>, cur: nat, t: CType,
                ghost types: seq<CType>, ghost first: Word)
    returns (cur': nat)
    requires ls.Length == LS_SIZE && ls != buf && vl.nextArg % 16 == 0
    requires Marshalled(buf[..], cur, vl.nextArg, types, ls[..], base, first, vl.callerStack)
    requires Past(cur, t) <= buf.Length
    modifies vl, buf
    ensures cur' == Past(cur, t) && vl.nextArg % 16 == 0
    ensures cur' <= cur + 4 + Size(t) && (Size(t) == 4 ==> cur' == cur + 4)
    ensures Marshalled(buf[..], cur', vl.nextArg, types + [t], ls[..], base, first, vl.callerStack)
  {
    ghost var before, next := buf[..], vl.nextArg;
    var v := GetValue(ls, base, vl, t);
    cur' := VaListPut(buf, cur, v);
    assert buf[..][..cur] == before[..cur];
    assert buf[..][Align(cur, Size(t))..cur'] == v;
    MarshalledPut(before, buf[..], cur, next, types, t, ls[..], base, first, vl.callerStack);
  }
}
