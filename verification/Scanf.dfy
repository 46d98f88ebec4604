/** Marshalling the arguments of scanf: `__parse_scanf_format` of
    spebase/default_c99_handler.c, lines 645-736, for both PowerPC ABIs, and the copying
    back of temporaries that the 64-bit one needs (lines 293-306). */
module Scanf {
  import opened Bytes
  import opened Common
  import opened Formats
  import opened VarArgs
  import opened Directives
  import P = Printf

  /** What a conversion reads: by a conversion character, or into a scanset.  `bracket`
      says that the set starts with a right bracket. */
  datatype Target = Single(c: char) | Set(negated: bool, bracket: bool, body: string)

  /** One conversion specification of section 7.19.6.2 of ISO/IEC 9899:1999. */
  datatype Conversion = Conversion(suppress: bool, width: string, length: P.Length, target: Target)

  function SetText(t: Target): string
    requires t.Set?
  {
    (if t.negated then "^" else "") + (if t.bracket then "]" else "")
  }

  function TargetText(t: Target): string {
    match t
    case Single(c) => [c]
    case Set(_, _, body) => "[" + (SetText(t) + (body + "]"))
  }

  function StarText(suppress: bool): string { if suppress then "*" else "" }

  function Text(v: Conversion): string {
    "%" + (StarText(v.suppress) + (v.width + (P.LengthText(v.length) + TargetText(v.target))))
  }

  predicate IsSingle(c: char) { P.IsInteger(c) || P.IsFloating(c) || c == 'n' || c == 'c' || c == 's' || c == 'p' }

  /** A set is not empty, a caret at its head negates it and the first bracket that is not
      at its head ends it. */
  predicate ValidTarget(t: Target) {
    match t
    case Single(c) => IsSingle(c) || c == '%'
    case Set(negated, bracket, body) =>
      && CString(body) && (forall i :: 0 <= i < |body| ==> body[i] != ']')
      && (!bracket ==> |body| > 0 && (!negated ==> body[0] != '^'))
  }

  predicate ValidConversion(v: Conversion) {
    && All(v.width, IsDigit)
    && ValidTarget(v.target)
    && (v.target == Single('%') ==> v == Conversion(false, "", P.Plain, Single('%')))
  }

  /** The conversions of section 7.19.6.2 with a conversion character, spelled out, and what
      they need on a 64-bit host. */
  lemma EverySingle(v: Conversion)
    requires v.target.Single? && P.AllDecimal(v.width)
    requires v.target.c in {'d', 'i', 'o', 'u', 'x', 'X', 'n', 'a', 'A', 'e', 'E', 'f', 'F', 'g', 'G', 'c', 's', 'p'}
    ensures ValidConversion(v) && (Assigns(v) <==> !v.suppress)
    ensures NeedsTemp(v) <==>
      v.target.c == 'p' || (v.target.c in {'d', 'i', 'o', 'u', 'x', 'X', 'n'} && v.length in {P.L, P.Z, P.T})
  {}

  // ---------- the arguments a format asks for ----------

  /** A conversion takes a pointer unless it is suppressed or is %%. */
  predicate Assigns(v: Conversion) { !v.suppress && v.target != Single('%') }

  function Types(v: Conversion): seq<CType> { if Assigns(v) then [Pointer] else [] }

  // ---------- the text in place ----------

  function WidthAt(v: Conversion): nat { 1 + |StarText(v.suppress)| }
  function LengthAt(v: Conversion): nat { WidthAt(v) + |v.width| }
  function TargetAt(v: Conversion): nat { LengthAt(v) + |P.LengthText(v.length)| }
  function LastAt(v: Conversion): nat { TargetAt(v) + |TargetText(v.target)| - 1 }

  predicate Stands(f: string, p: nat, v: Conversion) {
    && p + LastAt(v) < |f|
    && f[p] == '%'
    && Matches(f, p + 1, StarText(v.suppress))
    && Matches(f, p + WidthAt(v), v.width)
    && Matches(f, p + LengthAt(v), P.LengthText(v.length))
    && TargetStands(f, p + TargetAt(v), v.target)
  }

  predicate TargetStands(f: string, p: nat, t: Target)
    requires p < |f|
  {
    match t
    case Single(c) => f[p] == c
    case Set(_, _, body) =>
      && f[p] == '['
      && Matches(f, p + 1, SetText(t))
      && Matches(f, p + 1 + |SetText(t)|, body)
      && p + 1 + |SetText(t)| + |body| < |f|
      && f[p + 1 + |SetText(t)| + |body|] == ']'
  }

  lemma TargetTextStands(f: string, p: nat, t: Target)
    requires p < |f| && Matches(f, p, TargetText(t))
    ensures TargetStands(f, p, t)
  {
    MatchesHead(f, p, TargetText(t));
    if t.Set? {
      MatchesPart(f, p, "[", SetText(t) + (t.body + "]"));
      MatchesPart(f, p + 1, SetText(t), t.body + "]");
      MatchesPart(f, p + 1 + |SetText(t)|, t.body, "]");
      MatchesHead(f, p + 1 + |SetText(t)| + |t.body|, "]");
    }
  }

  lemma TargetNotEmpty(t: Target)
    ensures |TargetText(t)| > 0
  {}

  lemma TextStands(f: string, p: nat, v: Conversion)
    requires Matches(f, p, Text(v))
    ensures Stands(f, p, v) && |Text(v)| == LastAt(v) + 1
  {
    hide Matches, TargetStands, P.LengthText, TargetText, StarText;
    MatchesFits(f, p, Text(v));
    TargetNotEmpty(v.target);
    var t3 := P.LengthText(v.length) + TargetText(v.target);
    var t2 := v.width + t3;
    var t1 := StarText(v.suppress) + t2;
    MatchesPart(f, p, "%", t1);
    MatchesPart(f, p + 1, StarText(v.suppress), t2);
    MatchesPart(f, p + WidthAt(v), v.width, t3);
    MatchesPart(f, p + LengthAt(v), P.LengthText(v.length), TargetText(v.target));
    MatchesHead(f, p, "%");
    TargetTextStands(f, p + TargetAt(v), v.target);
  }

  // ---------- how the scan takes the parts ----------

  lemma HeadOfTarget(f: string, p: nat, v: Conversion)
    requires Stands(f, p, v) && ValidConversion(v)
    ensures var c := f[p + TargetAt(v)];
      c == (if v.target.Single? then v.target.c else '[')
      && !IsDigit(c) && !IsStar(c) && !IsLength(c)
  {}

  lemma LengthHead(l: P.Length)
    ensures P.LengthText(l) == [] <==> l.Plain?
    ensures !l.Plain? ==> IsLength(P.LengthText(l)[0])
  {}

  lemma HeadOfLength(f: string, p: nat, v: Conversion)
    requires Stands(f, p, v) && ValidConversion(v)
    ensures !IsDigit(f[p + LengthAt(v)]) && !IsStar(f[p + LengthAt(v)])
  {
    hide Matches, TargetStands, ValidTarget;
    HeadOfTarget(f, p, v);
    LengthHead(v.length);
    if !v.length.Plain? { MatchesHead(f, p + LengthAt(v), P.LengthText(v.length)); }
  }

  lemma HeadOfWidth(f: string, p: nat, v: Conversion)
    requires Stands(f, p, v) && ValidConversion(v)
    ensures !IsStar(f[p + WidthAt(v)])
    ensures |v.width| > 0 ==> IsDigit(f[p + WidthAt(v)])
  {
    hide Matches, TargetStands, ValidTarget, P.LengthText;
    HeadOfLength(f, p, v);
    if |v.width| > 0 { MatchesHead(f, p + WidthAt(v), v.width); }
  }

  lemma StarScanned(f: string, p: nat, v: Conversion)
    requires Stands(f, p, v) && ValidConversion(v)
    ensures SpanEnd(f, p + 1, IsStar) == p + WidthAt(v)
  {
    hide Matches, TargetStands, ValidTarget, P.LengthText, SpanEnd;
    HeadOfWidth(f, p, v);
    SpanIs(f, p + 1, StarText(v.suppress), IsStar);
  }

  lemma WidthScanned(f: string, p: nat, v: Conversion)
    requires Stands(f, p, v) && ValidConversion(v)
    ensures WidthEnd(f, p + WidthAt(v)) == p + LengthAt(v)
  {
    hide Matches, TargetStands, ValidTarget, P.LengthText, SpanEnd;
    HeadOfWidth(f, p, v);
    HeadOfLength(f, p, v);
    if |v.width| > 0 { SpanIs(f, p + WidthAt(v), v.width, IsDigit); }
  }

  lemma LengthScanned(f: string, p: nat, v: Conversion)
    requires Stands(f, p, v) && ValidConversion(v)
    ensures SpanEnd(f, p + LengthAt(v), IsLength) == p + TargetAt(v)
    ensures LongOf(f, p + LengthAt(v), p + TargetAt(v), 0) == P.Longness(v.length)
  {
    hide Matches, TargetStands, ValidTarget, P.LengthText, SpanEnd, LongOf, P.Longness;
    HeadOfTarget(f, p, v);
    P.LengthStands(f, p + LengthAt(v), v.length);
  }

  /** The position of the bracket SKIP_CHAR_SET finds for the set that starts at p. */
  function SetEnd(f: string, p: nat): (q: nat)
    requires p < |f|
    ensures q <= |f|
  {
    var a := p + 1;
    var b := if At(f, a) == '^' then a + 1 else a;
    var c := if At(f, b) == ']' then b + 1 else b;
    Find(f, ']', c)
  }

  lemma SetScanned(f: string, p: nat, t: Target)
    requires p < |f| && t.Set? && ValidTarget(t) && TargetStands(f, p, t)
    ensures SetEnd(f, p) == p + |TargetText(t)| - 1
  {
    var a, n := p + 1, |SetText(t)|;
    if n > 0 { MatchesHead(f, a, SetText(t)); }
    if n > 1 { assert f[a + 1] == SetText(t)[1]; }
    if |t.body| > 0 { MatchesHead(f, a + n, t.body); }
    forall j | a + n <= j < a + n + |t.body| ensures f[j] != ']' { assert f[a + n + (j - a - n)] == t.body[j - a - n]; }
  }

  /** Where the scan of a conversion gets to, macro by macro. */
  lemma ConversionScanned(f: string, s: nat, v: Conversion)
    requires Stands(f, s, v) && ValidConversion(v)
    ensures var w, l, t := s + WidthAt(v), s + LengthAt(v), s + TargetAt(v);
      && t < |f| && f[t] == (if v.target.Single? then v.target.c else '[')
      && SpanEnd(f, s + 1, IsStar) == w && (w > s + 1 <==> v.suppress)
      && WidthEnd(f, w) == l
      && SpanEnd(f, l, IsLength) == t
      && LongOf(f, l, t, 0) == P.Longness(v.length)
      && (v.target.Single? ==> v.target.c != '[' && t == s + LastAt(v))
      && (v.target.Set? ==> SetEnd(f, t) == s + LastAt(v))
      && s + LastAt(v) < |f|
  {
    StarScanned(f, s, v);
    WidthScanned(f, s, v);
    LengthScanned(f, s, v);
    HeadOfTarget(f, s, v);
    if v.target.Set? { SetScanned(f, s + TargetAt(v), v.target); }
  }

  lemma TextHead()
    ensures forall v: Conversion :: Text(v) != [] && Text(v)[0] == '%'
  {}

  /** The next conversion stands where strchr finds a percent sign. */
  lemma NextConversion(f: string, p: nat, ds: seq<Directive<Conversion>>, k: nat, tail: string)
    requires p <= |f| && k <= |ds| && Follows(Text, f, p, ds[k..], tail) && ValidFormat(ValidConversion, ds, tail)
    ensures Find(f, '%', p) == |f| <==> k == |ds|
    ensures k < |ds| ==>
      var q, v := Find(f, '%', p), ds[k].conv;
      && Stands(f, q, v) && ValidConversion(v) && q + LastAt(v) < |f|
      && Follows(Text, f, q + LastAt(v) + 1, ds[k + 1..], tail)
  {
    TextHead();
    hide Text, ValidConversion, Follows, ValidFormat, Matches, LastAt;
    NextDirective(Text, ValidConversion, f, p, ds, k, tail);
    if k < |ds| { TextStands(f, Find(f, '%', p), ds[k].conv); }
  }

  // ---------- the code: scanning ----------

  /** SKIP_CHAR_SET: the position of the closing bracket, or failure. */
  method SkipCharSet(f: string, p: nat) returns (ok: bool, q: nat)
    requires p < |f|
    ensures ok <==> SetEnd(f, p) < |f|
    ensures ok ==> q == SetEnd(f, p)
    ensures q <= |f|
  {
    q := p + 1;
    if At(f, q) == '^' { q := q + 1; }
    if At(f, q) == ']' { q := q + 1; }
    q := Find(f, ']', q);
    ok := q < |f|;
  }

  /** SKIP_FIELD_WIDTH without output. */
  method SkipFieldWidth(f: string, p: nat) returns (q: nat)
    requires p <= |f|
    ensures q == WidthEnd(f, p)
  {
    q := p;
    if p < |f| && IsDigit(f[p]) {
      q := Skip(f, p, IsDigit);
    } else if At(f, p) == '*' {
      q := p + 1;
    }
  }

  /** What the loop body finds behind the percent sign at s, and the position it leaves p
      at; it fails only for a set without an end. */
  method ScanConversion(f: string, p: nat, ghost s: nat, ghost v: Conversion)
    returns (ok: bool, q: nat, suppress: bool, long: nat, c: char)
    requires p == s + 1 && Stands(f, s, v) && ValidConversion(v)
    ensures ok && q == s + LastAt(v) && suppress == v.suppress && long == P.Longness(v.length)
    ensures c == (if v.target.Single? then v.target.c else '[')
  {
    hide *;
    ConversionScanned(f, s, v);
    q := Skip(f, p, IsStar);
    suppress := q > p;
    q := SkipFieldWidth(f, q);
    q, long := SkipLength(f, q);
    c, ok := f[q], true;
    if c == '[' {
      ok, q := SkipCharSet(f, q);
    }
  }

  // ---------- the code: 32-bit PowerPC ----------

  /** The cases of the switch statement that fetch an argument. */
  predicate Fetches(c: char) { IsSingle(c) || c == '[' }

  lemma FetchesWhenAssigning(v: Conversion, c: char)
    requires ValidConversion(v) && c == (if v.target.Single? then v.target.c else '[')
    ensures Fetches(c) && !v.suppress <==> Assigns(v)
  {}

  method ParseScanfFormat(f: string, ghost ds: seq<Directive<Conversion>>, ghost tail: string, nr: nat,
                          ls: array<Byte>, base: Word, vl: SpeVaList, buf: array<Byte>)
    returns (rc: int, cur: nat)
    requires ValidFormat(ValidConversion, ds, tail) && f == Render(Text, ds, tail) && nr == 3 * Percents(f)
    requires ls.Length == LS_SIZE && ls != buf && vl.nextArg % 16 == 0 && buf.Length == 8 * (nr + 1)
    modifies vl, buf
    ensures rc == 0 && cur <= 8 * nr
    ensures P.Storing(ls, base, vl, buf, cur, Gather(Types, ds), old(vl.nextArg))
  {
    TextHead();
    hide *;
    ghost var first, k := vl.nextArg, 0;
    PercentsCover(Text, ds, tail);
    WholeFormat(Text, Types, f, ds, tail);
    P.NothingStored(ls, base, vl, buf);
    var p: nat, left: nat := 0, nr;
    cur := 0;
    while left > 0 && p < |f|
      invariant p <= |f| && k <= |ds| && left == nr - k
      invariant Follows(Text, f, p, ds[k..], tail)
      invariant P.Storing(ls, base, vl, buf, cur, Gather(Types, ds[..k]), first)
      invariant cur <= 8 * k
      decreases left
    {
      var q := Find(f, '%', p);
      NextConversion(f, p, ds, k, tail);
      if q == |f| { break; }
      GatherStep(Types, ds, k);
      p := q + 1;
      left := left - 1;
      var ok, suppress, long, c;
      ok, p, suppress, long, c := ScanConversion(f, p, q, ds[k].conv);
      if !ok { return 1, cur; }
      cur := PutPointer(c, suppress, ds[k].conv, ls, base, vl, buf, cur, Gather(Types, ds[..k]), first);
      p := p + 1;
      k := k + 1;
    }
    NextConversion(f, p, ds, k, tail);
    rc := 0;
  }

  /** The switch statement: a pointer into local store unless the conversion is suppressed. */
  method PutPointer(c: char, suppress: bool, ghost v: Conversion, ls: array<Byte>, base: Word, vl: SpeVaList,
                    buf: array<Byte>, cur: nat, ghost types: seq<CType>, ghost first: Word)
    returns (cur': nat)
    requires ValidConversion(v) && suppress == v.suppress && c == (if v.target.Single? then v.target.c else '[')
    requires P.Storing(ls, base, vl, buf, cur, types, first) && cur + 8 <= buf.Length
    modifies vl, buf
    ensures P.Storing(ls, base, vl, buf, cur', types + Types(v), first)
    ensures cur' <= cur + 8
  {
    cur' := cur;
    FetchesWhenAssigning(v, c);
    hide ValidConversion, Fetches, Assigns;
    if Fetches(c) && !suppress {
      cur' := PutArg(ls, base, vl, buf, cur, Pointer, types, first);
    } else {
      assert types + [] == types;
    }
  }

  /** The calls of a scanf handler.  A va_arg reader finds one host pointer for every
      conversion that assigns, to the place in local store that the SPE named. */
  method MarshalScanf(f: string, ghost ds: seq<Directive<Conversion>>, ghost tail: string,
                      ls: array<Byte>, base: Word, vl: SpeVaList)
    returns (rc: int, buf: array<Byte>, nr: nat, cur: nat)
    requires ValidFormat(ValidConversion, ds, tail) && f == Render(Text, ds, tail) && CString(f)
    requires ls.Length == LS_SIZE && vl.nextArg % 16 == 0
    modifies vl
    ensures rc == 0 && fresh(buf) && buf.Length == 8 * (nr + 1)
    ensures cur == End(0, Gather(Types, ds)) <= 8 * nr
    ensures ReadAll(buf[..], 0, Gather(Types, ds)) ==
            Expected(ls[..], base, old(vl.nextArg), vl.callerStack, Gather(Types, ds))
    ensures AreArguments(ReadAll(buf[..], 0, Gather(Types, ds)), Gather(Types, ds), ls[..], base,
                         old(vl.nextArg), vl.callerStack)
    ensures vl.nextArg == Slot(old(vl.nextArg), vl.callerStack, |Gather(Types, ds)|)
  {
    nr := NrFormatArgs(f);
    buf := new Byte[8 * (nr + 1)];
    rc, cur := ParseScanfFormat(f, ds, tail, nr, ls, base, vl, buf);
    ExpectedAreArguments(ls[..], base, old(vl.nextArg), vl.callerStack, Gather(Types, ds));
  }

  /** The arguments consumed are as many as the conversions that assign. */
  function Assigning(ds: seq<Directive<Conversion>>): nat {
    if |ds| == 0 then 0 else (if Assigns(ds[0].conv) then 1 else 0) + Assigning(ds[1..])
  }

  lemma {:induction false} AllPointers(ds: seq<Directive<Conversion>>)
    ensures |Gather(Types, ds)| == Assigning(ds)
    ensures forall i :: 0 <= i < |Gather(Types, ds)| ==> Gather(Types, ds)[i] == Pointer
    ensures End(0, Gather(Types, ds)) == 4 * Assigning(ds)
  {
    if |ds| > 0 {
      AllPointers(ds[1..]);
      EndOfPointers(0, Gather(Types, ds));
    }
  }

  lemma {:induction false} EndOfPointers(cur: nat, types: seq<CType>)
    requires cur % 4 == 0 && forall i :: 0 <= i < |types| ==> types[i] == Pointer
    ensures End(cur, types) == cur + 4 * |types|
    decreases types
  {
    if |types| > 0 { EndOfPointers(Past(cur, types[0]), types[1..]); }
  }

  // ---------- the code: 64-bit PowerPC ----------

  /** A long or a pointer has 4 bytes on the SPE and 8 on the host.  The host stores it in
      a temporary, which is copied to its place in local store afterwards. */
  datatype Temp = Temp(llval: int, ptr: Option<nat>)

  /** An element of the va_list: a place in local store, or a temporary. */
  datatype Element = ToLocalStore(offset: nat) | ToTemp(index: nat)

  predicate NeedsTemp(v: Conversion) {
    && v.target.Single?
    && (v.target.c == 'p' || ((P.IsInteger(v.target.c) || v.target.c == 'n') && P.Longness(v.length) == 1))
  }

  /** The offset in local store that the argument in slot k names. */
  function OffsetOf(ls: seq<Byte>, first: Word, caller: Word, k: nat): (r: nat)
    requires |ls| == LS_SIZE && first % 16 == 0
    ensures r < LS_SIZE
  {
    var a := Masked(Slot(first, caller, k));
    FromBE(ls[a..a + 4]) % LS_SIZE
  }

  /** It is the SPE's address, less a multiple of the size of local store. */
  lemma OffsetIs(ls: seq<Byte>, first: Word, caller: Word, k: nat)
    requires |ls| == LS_SIZE && first % 16 == 0
    ensures var at := Slot(first, caller, k) % 0x40000;
      at + 4 <= |ls| && PointsTo(OffsetOf(ls, first, caller, k), 0, FromBE(ls[at..at + 4]))
  {
    hide FromBE, Slot;
    var a := Slot(first, caller, k);
    assert Masked(a) == a % 0x40000;
    var o := FromBE(ls[Masked(a)..Masked(a) + 4]);
    assert o % 0x40000 == o - 0x40000 * (o / 0x40000);
    WholeTurns(o / 0x40000);
  }

  /** The va_list that the rest of a format asks for, e elements and t temporaries into it. */
  function Elements(ds: seq<Directive<Conversion>>, e: nat, t: nat, ls: seq<Byte>, first: Word, caller: Word)
    : seq<Element>
    requires |ls| == LS_SIZE && first % 16 == 0
    decreases ds
  {
    if |ds| == 0 then []
    else
      var v := ds[0].conv;
      if !Assigns(v) then Elements(ds[1..], e, t, ls, first, caller)
      else if NeedsTemp(v) then [ToTemp(t)] + Elements(ds[1..], e + 1, t + 1, ls, first, caller)
      else [ToLocalStore(OffsetOf(ls, first, caller, e))] + Elements(ds[1..], e + 1, t, ls, first, caller)
  }

  /** The places in local store that its temporaries are to be copied to. */
  function TempTargets(ds: seq<Directive<Conversion>>, e: nat, ls: seq<Byte>, first: Word, caller: Word): seq<nat>
    requires |ls| == LS_SIZE && first % 16 == 0
    decreases ds
  {
    if |ds| == 0 then []
    else
      var v := ds[0].conv;
      (if Assigns(v) && NeedsTemp(v) then [OffsetOf(ls, first, caller, e)] else [])
      + TempTargets(ds[1..], if Assigns(v) then e + 1 else e, ls, first, caller)
  }

  /** The targets recorded in the temporaries up to n, and no null pointer among them. */
  ghost predicate Recorded(temps: seq<Temp>, n: nat, targets: seq<nat>) {
    n == |targets| <= |temps| && forall i :: 0 <= i < n ==> temps[i].ptr == Some(targets[i])
  }

  /** The values are as they were; only the pointers have been set. */
  ghost predicate SameValues(temps: seq<Temp>, temps': seq<Temp>) {
    |temps'| == |temps| && forall i :: 0 <= i < |temps| ==> temps'[i].llval == temps[i].llval
  }

  /** The variables of one call: e elements and n temporaries are filled in as the whole
      format asks, and what the directives `rest` ask for is still to come. */
  ghost predicate Storing64(ls: array<Byte>, vl: SpeVaList, vlist: array<Element>, temps: array<Temp>,
                            e: nat, n: nat, rest: seq<Directive<Conversion>>, first: Word,
                            elements: seq<Element>, targets: seq<nat>)
    reads ls, vl, vlist, temps
  {
    && ls.Length == LS_SIZE && first % 16 == 0 && vl.nextArg % 16 == 0
    && vl.nextArg == Slot(first, vl.callerStack, e)
    && Stored64(ls[..], vl.callerStack, vlist[..], temps[..], e, n, rest, first, elements, targets)
  }

  ghost predicate Stored64(mem: seq<Byte>, caller: Word, vs: seq<Element>, ts: seq<Temp>, e: nat, n: nat,
                           rest: seq<Directive<Conversion>>, first: Word, elements: seq<Element>, targets: seq<nat>)
    requires |mem| == LS_SIZE && first % 16 == 0
  {
    && n <= e && e <= |vs| && e <= |elements| && n <= |targets|
    && vs[..e] == elements[..e] && elements[e..] == Elements(rest, e, n, mem, first, caller)
    && Recorded(ts, n, targets[..n]) && targets[n..] == TempTargets(rest, e, mem, first, caller)
  }

  /** A conversion that assigns fills in one element, and a temporary if it needs one. */
  lemma OneStored(mem: seq<Byte>, caller: Word, vs: seq<Element>, ts: seq<Temp>, e: nat, n: nat,
                  rest: seq<Directive<Conversion>>, first: Word, elements: seq<Element>, targets: seq<nat>)
    requires |mem| == LS_SIZE && first % 16 == 0 && |rest| > 0 && e < |vs| && n < |ts|
    requires Stored64(mem, caller, vs, ts, e, n, rest, first, elements, targets)
    ensures var offset := OffsetOf(mem, first, caller, e);
      if !Assigns(rest[0].conv) then Stored64(mem, caller, vs, ts, e, n, rest[1..], first, elements, targets)
      else if NeedsTemp(rest[0].conv) then
        Stored64(mem, caller, vs[e := ToTemp(n)], ts[n := ts[n].(ptr := Some(offset))], e + 1, n + 1, rest[1..],
                 first, elements, targets)
      else Stored64(mem, caller, vs[e := ToLocalStore(offset)], ts, e + 1, n, rest[1..], first, elements, targets)
  {
    hide OffsetOf, Assigns, NeedsTemp, Recorded;
    var offset, v := OffsetOf(mem, first, caller, e), rest[0].conv;
    if Assigns(v) {
      assert elements[e] == elements[e..][0] && elements[e + 1..] == elements[e..][1..];
      assert elements[..e + 1] == elements[..e] + [elements[e]];
      if NeedsTemp(v) {
        assert targets[n] == targets[n..][0] == offset && targets[n + 1..] == targets[n..][1..];
        RecordedOneMore(ts, n, targets);
        assert vs[e := ToTemp(n)][..e + 1] == vs[..e] + [ToTemp(n)];
      } else {
        assert vs[e := ToLocalStore(offset)][..e + 1] == vs[..e] + [ToLocalStore(offset)];
      }
    }
  }

  lemma RecordedOneMore(ts: seq<Temp>, n: nat, targets: seq<nat>)
    requires n < |ts| && n < |targets| && Recorded(ts, n, targets[..n])
    ensures Recorded(ts[n := ts[n].(ptr := Some(targets[n]))], n + 1, targets[..n + 1])
  {
    forall i | 0 <= i < n ensures ts[i].ptr == Some(targets[i]) { assert targets[..n][i] == targets[i]; }
  }

  /** The switch statement on the 64-bit PowerPC. */
  method PutElement(c: char, suppress: bool, long: nat, ghost v: Conversion, ghost rest: seq<Directive<Conversion>>,
                    ls: array<Byte>, vl: SpeVaList, vlist: array<Element>, temps: array<Temp>, e: nat, n: nat,
                    ghost first: Word, ghost elements: seq<Element>, ghost targets: seq<nat>)
    returns (e': nat, n': nat)
    requires ValidConversion(v) && suppress == v.suppress && c == (if v.target.Single? then v.target.c else '[')
    requires long == P.Longness(v.length) && |rest| > 0 && rest[0].conv == v
    requires Storing64(ls, vl, vlist, temps, e, n, rest, first, elements, targets)
    requires e < vlist.Length && n < temps.Length
    modifies vl, vlist, temps
    ensures Storing64(ls, vl, vlist, temps, e', n', rest[1..], first, elements, targets)
    ensures e' <= e + 1 && n' <= n + 1 && SameValues(old(temps[..]), temps[..])
  {
    FetchesWhenAssigning(v, c);
    TempWhenLong(v, c);
    OneStored(ls[..], vl.callerStack, vlist[..], temps[..], e, n, rest, first, elements, targets);
    hide ValidConversion, Fetches, Assigns, NeedsTemp, OffsetOf, Advance, Stored64, SameValues;
    ValuesKept(temps[..]);
    e', n' := e, n;
    if Fetches(c) && !suppress {
      var bytes := GetLsVarg(ls, vl, 4);
      var offset := FromBE(bytes) % LS_SIZE;
      OffsetFetched(ls, first, vl.callerStack, e, bytes);
      if c == 'p' || ((P.IsInteger(c) || c == 'n') && long == 1) {
        ghost var was := temps[..];
        temps[n] := temps[n].(ptr := Some(offset));
        assert temps[..] == was[n := was[n].(ptr := Some(offset))];
        OnePointerSet(was, n, Some(offset));
        vlist[e] := ToTemp(n);
        n' := n + 1;
      } else {
        vlist[e] := ToLocalStore(offset);
      }
      e' := e + 1;
    }
  }

  /** __parse_scanf_format on the 64-bit PowerPC: e elements of the va_list and n
      temporaries, with a null pointer behind them. */
  method ParseScanfFormat64(f: string, ghost ds: seq<Directive<Conversion>>, ghost tail: string, nr: nat,
                            ls: array<Byte>, vl: SpeVaList, vlist: array<Element>, temps: array<Temp>)
    returns (rc: int, e: nat, n: nat)
    requires ValidFormat(ValidConversion, ds, tail) && f == Render(Text, ds, tail) && nr == 3 * Percents(f)
    requires ls.Length == LS_SIZE && vl.nextArg % 16 == 0
    requires vlist.Length == nr + 1 && temps.Length == nr + 1
    modifies vl, vlist, temps
    ensures rc == 0 && n <= e <= nr
    ensures vlist[..e] == Elements(ds, 0, 0, ls[..], old(vl.nextArg), vl.callerStack)
    ensures Recorded(temps[..], n, TempTargets(ds, 0, ls[..], old(vl.nextArg), vl.callerStack))
    ensures temps[n].ptr.None? && SameValues(old(temps[..]), temps[..])
  {
    TextHead();
    hide *;
    ghost var first, k := vl.nextArg, 0;
    ghost var elements := Elements(ds, 0, 0, ls[..], first, vl.callerStack);
    ghost var targets := TempTargets(ds, 0, ls[..], first, vl.callerStack);
    PercentsCover(Text, ds, tail);
    WholeFormat(Text, Types, f, ds, tail);
    NothingStored64(ls, vl, vlist, temps, ds, elements, targets);
    ghost var junk := temps[..];
    ValuesKept(junk);
    var p: nat, left: nat := 0, nr;
    e, n := 0, 0;
    while left > 0 && p < |f|
      invariant p <= |f| && k <= |ds| && left == nr - k
      invariant Follows(Text, f, p, ds[k..], tail)
      invariant n <= k && e <= k
      invariant Storing64(ls, vl, vlist, temps, e, n, ds[k..], first, elements, targets)
      invariant SameValues(junk, temps[..])
      decreases left
    {
      var q := Find(f, '%', p);
      NextConversion(f, p, ds, k, tail);
      if q == |f| { break; }
      p := q + 1;
      left := left - 1;
      var ok, suppress, long, c;
      ok, p, suppress, long, c := ScanConversion(f, p, q, ds[k].conv);
      if !ok { return 1, e, n; }
      assert ds[k..][0] == ds[k] && ds[k..][1..] == ds[k + 1..];
      ghost var before := temps[..];
      e, n := PutElement(c, suppress, long, ds[k].conv, ds[k..], ls, vl, vlist, temps, e, n, first, elements, targets);
      ValuesStillKept(junk, before, temps[..]);
      p := p + 1;
      k := k + 1;
    }
    NextConversion(f, p, ds, k, tail);
    AllStored(ls, vl, vlist, temps, e, n, ds[k..], first, elements, targets);
    ghost var filled := temps[..];
    EndTemps(temps, n, targets);
    ValuesStillKept(junk, filled, temps[..]);
    rc := 0;
  }

  lemma ValuesKept(a: seq<Temp>)
    ensures SameValues(a, a)
  {}

  lemma OnePointerSet(a: seq<Temp>, n: nat, ptr: Option<nat>)
    requires n < |a|
    ensures SameValues(a, a[n := a[n].(ptr := ptr)])
  {}

  lemma ValuesStillKept(a: seq<Temp>, b: seq<Temp>, c: seq<Temp>)
    requires SameValues(a, b) && SameValues(b, c)
    ensures SameValues(a, c)
  {}

  /** The null pointer behind the temporaries. */
  method EndTemps(temps: array<Temp>, n: nat, ghost targets: seq<nat>)
    requires n < temps.Length && Recorded(temps[..], n, targets)
    modifies temps
    ensures Recorded(temps[..], n, targets) && temps[n].ptr.None? && SameValues(old(temps[..]), temps[..])
  {
    temps[n] := temps[n].(ptr := None);
    assert temps[..][..n] == old(temps[..])[..n];
    RecordedEarlier(old(temps[..]), temps[..], n, targets);
  }

  lemma NothingStored64(ls: array<Byte>, vl: SpeVaList, vlist: array<Element>, temps: array<Temp>,
                        ds: seq<Directive<Conversion>>, elements: seq<Element>, targets: seq<nat>)
    requires ls.Length == LS_SIZE && vl.nextArg % 16 == 0
    requires elements == Elements(ds, 0, 0, ls[..], vl.nextArg, vl.callerStack)
    requires targets == TempTargets(ds, 0, ls[..], vl.nextArg, vl.callerStack)
    ensures Storing64(ls, vl, vlist, temps, 0, 0, ds[0..], vl.nextArg, elements, targets)
  {
    hide Elements, TempTargets;
    assert ds[0..] == ds;
  }

  lemma AllStored(ls: array<Byte>, vl: SpeVaList, vlist: array<Element>, temps: array<Temp>, e: nat, n: nat,
                  rest: seq<Directive<Conversion>>, first: Word, elements: seq<Element>, targets: seq<nat>)
    requires Storing64(ls, vl, vlist, temps, e, n, rest, first, elements, targets) && |rest| == 0
    ensures vlist[..e] == elements && Recorded(temps[..], n, targets) && n <= e && n == |targets|
  {
    assert elements[..e] + elements[e..] == elements && targets[..n] + targets[n..] == targets;
  }

  lemma RecordedEarlier(temps: seq<Temp>, temps': seq<Temp>, n: nat, targets: seq<nat>)
    requires Recorded(temps, n, targets) && |temps'| == |temps| && temps'[..n] == temps[..n]
    ensures Recorded(temps', n, targets)
  {
    forall i | 0 <= i < n ensures temps'[i].ptr == Some(targets[i]) { assert temps'[..n][i] == temps[..n][i]; }
  }

  lemma TempWhenLong(v: Conversion, c: char)
    requires c == (if v.target.Single? then v.target.c else '[')
    ensures NeedsTemp(v) <==> c == 'p' || ((P.IsInteger(c) || c == 'n') && P.Longness(v.length) == 1)
  {}

  lemma OffsetFetched(ls: array<Byte>, first: Word, caller: Word, e: nat, bytes: seq<Byte>)
    requires ls.Length == LS_SIZE && first % 16 == 0
    requires var a := Masked(Slot(first, caller, e)); bytes == ls[a..a + 4]
    ensures FromBE(bytes) % LS_SIZE == OffsetOf(ls[..], first, caller, e)
  {
    var a := Masked(Slot(first, caller, e));
    assert ls[..][a..a + 4] == ls[a..a + 4];
  }

  /** The low word of a temporary, as an assignment to an int keeps it. */
  function LowWord(llval: int): (r: seq<Byte>)
    ensures |r| == 4
  {
    BE(llval % 0x1_0000_0000, 4)
  }

  function Written(ls: seq<Byte>, at: nat, bytes: seq<Byte>): (r: seq<Byte>)
    requires at + |bytes| <= |ls|
    ensures |r| == |ls|
  {
    ls[..at] + bytes + ls[at + |bytes|..]
  }

  /** Local store after the temporaries have been copied, one after the other. */
  function CopiedBack(ls: seq<Byte>, temps: seq<Temp>): (r: seq<Byte>)
    requires forall i :: 0 <= i < |temps| ==> temps[i].ptr.Some? && temps[i].ptr.value + 4 <= |ls|
    ensures |r| == |ls|
  {
    if |temps| == 0 then ls
    else Written(CopiedBack(ls, temps[..|temps| - 1]), temps[|temps| - 1].ptr.value, LowWord(temps[|temps| - 1].llval))
  }

  /** __copy_va_temp: it ends at the null pointer behind the temporaries.  `ls` is local store
      with as much of the memory behind it as the copies reach. */
  method CopyVaTemp(temps: array<Temp>, ls: array<Byte>, ghost n: nat)
    requires n < temps.Length && temps[n].ptr.None?
    requires forall i :: 0 <= i < n ==> temps[i].ptr.Some? && temps[i].ptr.value + 4 <= ls.Length
    modifies ls
    ensures ls[..] == CopiedBack(old(ls[..]), temps[..n])
  {
    var i := 0;
    assert temps[..0] == [];
    while temps[i].ptr.Some?
      invariant 0 <= i <= n
      invariant forall j :: 0 <= j < n ==> temps[j] == old(temps[j])
      invariant temps[n] == old(temps[n])
      invariant ls[..] == CopiedBack(old(ls[..]), temps[..i])
      decreases n - i
    {
      assert temps[..i + 1][..i] == temps[..i];
      CopyIn(ls, temps[i].ptr.value, LowWord(temps[i].llval));
      i := i + 1;
    }
  }

  /** The temporary is copied over address a. */
  predicate Aims(t: Temp, a: nat) { t.ptr.Some? && t.ptr.value <= a < t.ptr.value + 4 }

  /** The number of the last temporary copied over address a, from one; 0 for none. */
  function LastAim(temps: seq<Temp>, a: nat): (n: nat)
    ensures n <= |temps| && (n > 0 ==> Aims(temps[n - 1], a))
    ensures forall i :: n <= i < |temps| ==> !Aims(temps[i], a)
  {
    if |temps| == 0 then 0
    else if Aims(temps[|temps| - 1], a) then |temps|
    else LastAim(temps[..|temps| - 1], a)
  }

  /** Every byte is the one the last temporary that covers it gave it, or the old one. */
  lemma {:induction false} CopiedBackAt(ls: seq<Byte>, temps: seq<Temp>, a: nat)
    requires forall i :: 0 <= i < |temps| ==> temps[i].ptr.Some? && temps[i].ptr.value + 4 <= |ls|
    requires a < |ls|
    ensures CopiedBack(ls, temps)[a] ==
      var n := LastAim(temps, a);
      if n == 0 then ls[a] else LowWord(temps[n - 1].llval)[a - temps[n - 1].ptr.value]
  {
    hide LowWord, Written;
    if |temps| > 0 {
      var rest, last := temps[..|temps| - 1], temps[|temps| - 1];
      CopiedBackAt(ls, rest, a);
      WrittenAt(CopiedBack(ls, rest), last.ptr.value, LowWord(last.llval), a);
    }
  }

  lemma WrittenAt(ls: seq<Byte>, at: nat, bytes: seq<Byte>, a: nat)
    requires at + |bytes| <= |ls| && a < |ls|
    ensures Written(ls, at, bytes)[a] == if at <= a < at + |bytes| then bytes[a - at] else ls[a]
  {}

  lemma LowWordValue(llval: int)
    ensures |LowWord(llval)| == 4 && FromBE(LowWord(llval)) == llval % 0x1_0000_0000
  {
    WordRoundTrip(llval % 0x1_0000_0000);
  }

  lemma LastAimIs(temps: seq<Temp>, a: nat, i: nat)
    requires i < |temps| && Aims(temps[i], a) && forall j :: i < j < |temps| ==> !Aims(temps[j], a)
    ensures LastAim(temps, a) == i + 1
  {}

  /** With targets apart from each other, each temporary is found at its own target. */
  lemma EachAtItsTarget(ls: seq<Byte>, temps: seq<Temp>, i: nat)
    requires forall j :: 0 <= j < |temps| ==> temps[j].ptr.Some? && temps[j].ptr.value + 4 <= |ls|
    requires i < |temps|
    requires forall j :: i < j < |temps| ==>
      temps[j].ptr.value + 4 <= temps[i].ptr.value || temps[i].ptr.value + 4 <= temps[j].ptr.value
    ensures var a := temps[i].ptr.value;
      FromBE(CopiedBack(ls, temps)[a..a + 4]) == temps[i].llval % 0x1_0000_0000
  {
    hide LowWord, CopiedBack, LastAim;
    var a, out, word := temps[i].ptr.value, CopiedBack(ls, temps), LowWord(temps[i].llval);
    TargetByte(ls, temps, i, 0);
    TargetByte(ls, temps, i, 1);
    TargetByte(ls, temps, i, 2);
    TargetByte(ls, temps, i, 3);
    assert out[a..a + 4] == [out[a], out[a + 1], out[a + 2], out[a + 3]];
    assert word == [word[0], word[1], word[2], word[3]];
    LowWordValue(temps[i].llval);
  }

  lemma TargetByte(ls: seq<Byte>, temps: seq<Temp>, i: nat, j: nat)
    requires forall t :: 0 <= t < |temps| ==> temps[t].ptr.Some? && temps[t].ptr.value + 4 <= |ls|
    requires i < |temps| && j < 4
    requires forall t :: i < t < |temps| ==>
      temps[t].ptr.value + 4 <= temps[i].ptr.value || temps[i].ptr.value + 4 <= temps[t].ptr.value
    ensures CopiedBack(ls, temps)[temps[i].ptr.value + j] == LowWord(temps[i].llval)[j]
  {
    hide LowWord, CopiedBack, LastAim;
    var a := temps[i].ptr.value + j;
    forall t | i < t < |temps| ensures !Aims(temps[t], a) {}
    LastAimIs(temps, a, i);
    CopiedBackAt(ls, temps, a);
  }

  // ---------- the whole call on a 64-bit host ----------

  /** Temporaries with these values and targets. */
  function Filled(targets: seq<nat>, values: seq<int>): (temps: seq<Temp>)
    requires |values| == |targets|
    ensures |temps| == |targets|
  {
    seq(|targets|, i requires 0 <= i < |targets| => Temp(values[i], Some(targets[i])))
  }

  /** Four bytes at every target lie within local store. */
  predicate Within(targets: seq<nat>) { forall i :: 0 <= i < |targets| ==> targets[i] + 4 <= LS_SIZE }

  /** What n temporaries hold after the host has stored in the first of them; the memory
      they lie in held `junk`. */
  function Held(values: seq<int>, junk: nat -> int, n: nat): (r: seq<int>)
    requires |values| <= n
    ensures |r| == n
  {
    seq(n, i requires 0 <= i < n => if i < |values| then values[i] else junk(i))
  }

  /** The host's scanf: it stores through the pointers into local store, and a value in each
      temporary it reaches before the input ends or does not match. */
  method HostScans(ls: array<Byte>, stored: seq<Byte>, temps: array<Temp>, n: nat, values: seq<int>,
                   ghost junk: nat -> int, ghost targets: seq<nat>)
    requires ls.Length == |stored| && |values| <= n < temps.Length && temps[n].ptr.None?
    requires Recorded(temps[..], n, targets) && forall i :: 0 <= i < n ==> temps[i].llval == junk(i)
    modifies ls, temps
    ensures ls[..] == stored && temps[..n] == Filled(targets, Held(values, junk, n)) && temps[n].ptr.None?
  {
    forall i | 0 <= i < ls.Length { ls[i] := stored[i]; }
    for i := 0 to |values|
      invariant ls[..] == stored && temps[n].ptr.None?
      invariant forall j :: 0 <= j < n ==>
        temps[j] == Temp(if j < i then values[j] else junk(j), Some(targets[j]))
    {
      temps[i] := temps[i].(llval := values[i]);
    }
  }

  /** Estimate, parse, the host's scanf and the copies.  `stored` is local store as the host
      leaves it and `values` what it stores in the temporaries it reaches.  All of them are
      copied, each to its target: the others take there what their memory held before.  The
      source masks only where a target starts, so the copies stay within local store for
      targets up to LS_SIZE - 4. */
  method MarshalScanf64(f: string, ghost ds: seq<Directive<Conversion>>, ghost tail: string,
                        ls: array<Byte>, vl: SpeVaList, stored: seq<Byte>, values: seq<int>, junk: nat -> int)
    returns (rc: int, vlist: array<Element>, e: nat)
    requires ValidFormat(ValidConversion, ds, tail) && f == Render(Text, ds, tail) && CString(f)
    requires ls.Length == LS_SIZE == |stored| && vl.nextArg % 16 == 0
    requires |values| <= |TempTargets(ds, 0, ls[..], vl.nextArg, vl.callerStack)|
    requires Within(TempTargets(ds, 0, ls[..], vl.nextArg, vl.callerStack))
    modifies vl, ls
    ensures rc == 0 && e <= vlist.Length
    ensures vlist[..e] == Elements(ds, 0, 0, old(ls[..]), old(vl.nextArg), vl.callerStack)
    ensures var targets := old(TempTargets(ds, 0, ls[..], vl.nextArg, vl.callerStack));
      ls[..] == AllCopied(stored, targets, Held(values, junk, |targets|))
  {
    hide TempTargets, Elements, ValidFormat, Render, CopiedBack, SameValues;
    ghost var targets := TempTargets(ds, 0, ls[..], vl.nextArg, vl.callerStack);
    var nr := NrFormatArgs(f);
    vlist := new Element[nr + 1](_ => ToTemp(0));
    var temps := new Temp[nr + 1](i => Temp(junk(i), None));
    ghost var memory := temps[..];
    var n;
    rc, e, n := ParseScanfFormat64(f, ds, tail, nr, ls, vl, vlist, temps);
    StillJunk(memory, temps[..], junk);
    HostScans(ls, stored, temps, n, values, junk, targets);
    CopyVaTemp(temps, ls, n);
  }

  lemma StillJunk(before: seq<Temp>, after: seq<Temp>, junk: nat -> int)
    requires SameValues(before, after) && forall i :: 0 <= i < |before| ==> before[i].llval == junk(i)
    ensures forall i :: 0 <= i < |after| ==> after[i].llval == junk(i)
  {}

  /** Local store after each value has been copied to its target. */
  function AllCopied(stored: seq<Byte>, targets: seq<nat>, values: seq<int>): (r: seq<Byte>)
    requires |stored| == LS_SIZE && |values| == |targets| && Within(targets)
    ensures |r| == LS_SIZE
  {
    CopiedBack(stored, Filled(targets, values))
  }

  /** Local store gets exactly what the host has stored, whatever the temporaries held
      before, if and only if the host has reached every temporary. */
  lemma ScannedIff(stored: seq<Byte>, targets: seq<nat>, values: seq<int>)
    requires |stored| == LS_SIZE && |values| <= |targets| && Within(targets)
    ensures |values| == |targets| <==>
      forall junk: nat -> int :: AllCopied(stored, targets, Held(values, junk, |targets|)) ==
        AllCopied(stored, targets[..|values|], values)
  {
    hide CopiedBack;
    var n := |targets|;
    if |values| == n {
      assert targets[..n] == targets;
      forall junk: nat -> int ensures Held(values, junk, n) == values {}
    } else {
      var a, meant := targets[n - 1], AllCopied(stored, targets[..|values|], values);
      var junk: nat -> int := _ => FromBE(meant[a..a + 4]) + 1;
      LastAtItsTarget(stored, targets, Held(values, junk, n));
      FromBEBound(meant[a..a + 4]);
    }
  }

  lemma LastAtItsTarget(stored: seq<Byte>, targets: seq<nat>, values: seq<int>)
    requires |stored| == LS_SIZE && |values| == |targets| > 0 && Within(targets)
    ensures var i := |targets| - 1;
      FromBE(AllCopied(stored, targets, values)[targets[i]..targets[i] + 4]) == values[i] % 0x1_0000_0000
  {
    EachAtItsTarget(stored, Filled(targets, values), |targets| - 1);
  }

  lemma TwoLongs()
    ensures var v := Conversion(false, "", P.L, Single('d'));
      Render(Text, [Directive("", v), Directive(" ", v)], "") == "%ld %ld"
  {
    var v := Conversion(false, "", P.L, Single('d'));
    var ds := [Directive("", v), Directive(" ", v)];
    assert Text(v) == "%ld";
    hide Text;
    assert ds[1..] == [ds[1]] && [ds[1]][1..] == [];
    assert Render(Text, [], "") == "";
    assert Render(Text, [ds[1]], "") == " " + ("%ld" + "") == " %ld";
    assert Render(Text, ds, "") == "" + ("%ld" + " %ld") == "%ld %ld";
  }

  /** "%ld %ld" with the input "5": the second variable is overwritten with whatever the
      second temporary held. */
  lemma SecondVariableLost(stored: seq<Byte>, ls: seq<Byte>, first: Word, caller: Word, junk: nat -> int)
    requires |ls| == LS_SIZE == |stored| && first % 16 == 0
    requires OffsetOf(ls, first, caller, 0) <= LS_SIZE - 4 && OffsetOf(ls, first, caller, 1) <= LS_SIZE - 4
    ensures var v := Conversion(false, "", P.L, Single('d'));
      var ds := [Directive("", v), Directive(" ", v)];
      var targets := TempTargets(ds, 0, ls, first, caller);
      && ValidFormat(ValidConversion, ds, "") && Render(Text, ds, "") == "%ld %ld" && |targets| == 2 && Within(targets)
      && var b := OffsetOf(ls, first, caller, 1);
         FromBE(AllCopied(stored, targets, Held([5], junk, 2))[b..b + 4]) == junk(1) % 0x1_0000_0000
  {
    hide FromBE, CopiedBack, OffsetOf, Render;
    var v := Conversion(false, "", P.L, Single('d'));
    var ds := [Directive("", v), Directive(" ", v)];
    assert ds[1..] == [Directive(" ", v)] && ds[1..][1..] == [];
    TwoLongs();
    assert TempTargets([], 2, ls, first, caller) == [];
    assert Assigns(v) && NeedsTemp(v);
    assert TempTargets(ds[1..], 1, ls, first, caller) == [OffsetOf(ls, first, caller, 1)] + [];
    var targets := TempTargets(ds, 0, ls, first, caller);
    assert targets == [OffsetOf(ls, first, caller, 0)] + [OffsetOf(ls, first, caller, 1)];
    LastAtItsTarget(stored, targets, Held([5], junk, 2));
  }

  /** For values of all kinds the memory behind local store stays as it is if and only if
      there is room for four bytes at every target. */
  lemma InsideIff(mem: seq<Byte>, targets: seq<nat>)
    requires |mem| >= LS_SIZE + 3 && forall i :: 0 <= i < |targets| ==> targets[i] < LS_SIZE
    ensures Within(targets) <==>
      forall values: seq<int> :: |values| == |targets| ==>
        CopiedBack(mem, Filled(targets, values))[LS_SIZE..] == mem[LS_SIZE..]
  {
    hide CopiedBack, Within;
    if Within(targets) {
      forall values: seq<int> | |values| == |targets|
        ensures CopiedBack(mem, Filled(targets, values))[LS_SIZE..] == mem[LS_SIZE..]
      {
        StaysInside(mem, targets, values);
      }
    } else {
      var values := GoesOutside(mem, targets);
    }
  }

  lemma StaysInside(mem: seq<Byte>, targets: seq<nat>, values: seq<int>)
    requires |mem| >= LS_SIZE && Within(targets) && |values| == |targets|
    ensures CopiedBack(mem, Filled(targets, values))[LS_SIZE..] == mem[LS_SIZE..]
  {
    hide CopiedBack, LastAim, LowWord;
    var temps := Filled(targets, values);
    forall a | LS_SIZE <= a < |mem| ensures CopiedBack(mem, temps)[a] == mem[a] {
      CopiedBackAt(mem, temps, a);
    }
  }

  /** Values whose bytes are all different from the first one behind local store. */
  lemma GoesOutside(mem: seq<Byte>, targets: seq<nat>) returns (values: seq<int>)
    requires |mem| >= LS_SIZE + 3 && !Within(targets) && forall i :: 0 <= i < |targets| ==> targets[i] < LS_SIZE
    ensures |values| == |targets| && CopiedBack(mem, Filled(targets, values))[LS_SIZE..] != mem[LS_SIZE..]
  {
    FourAlike();
    hide CopiedBack, LastAim, LowWord;
    var v := if mem[LS_SIZE] == 0 then 0x0101_0101 else 0;
    values := seq(|targets|, i => v);
    var temps := Filled(targets, values);
    CopiedBackAt(mem, temps, LS_SIZE);
    var i :| 0 <= i < |targets| && targets[i] + 4 > LS_SIZE;
    assert Aims(temps[i], LS_SIZE);
    var n := LastAim(temps, LS_SIZE);
    assert n > 0 && temps[n - 1].llval == v;
    assert CopiedBack(mem, temps)[LS_SIZE..][0] == CopiedBack(mem, temps)[LS_SIZE];
    assert mem[LS_SIZE..][0] == mem[LS_SIZE];
  }

  lemma FourAlike()
    ensures LowWord(0) == [0, 0, 0, 0] && LowWord(0x0101_0101) == [1, 1, 1, 1]
  {
    assert BE(0, 0) == [] && BE(0, 1) == [0] && BE(0, 2) == [0, 0] && BE(0, 3) == [0, 0, 0] && BE(0, 4) == [0, 0, 0, 0];
    assert BE(1, 1) == [1] && BE(0x101, 2) == [1, 1] && BE(0x1_0101, 3) == [1, 1, 1];
    assert BE(0x0101_0101, 4) == [1, 1, 1, 1];
  }

  /** A target within the last three bytes, as for %ld with a pointer to the last byte of
      local store: the copy would run past the end. */
  lemma TargetAtTheEnd(ls: seq<Byte>, first: Word, caller: Word)
    requires |ls| == LS_SIZE && first % 16 == 0
    requires FromBE(ls[Masked(first)..Masked(first) + 4]) == LS_SIZE - 1
    ensures var ds := [Directive("", Conversion(false, "", P.L, Single('d')))];
      ValidFormat(ValidConversion, ds, "") && !Within(TempTargets(ds, 0, ls, first, caller))
  {
    hide FromBE;
    var v := Conversion(false, "", P.L, Single('d'));
    var ds := [Directive("", v)];
    assert ds[1..] == [] && Slot(first, caller, 0) == first;
    assert TempTargets([], 1, ls, first, caller) == [];
    assert Assigns(v) && NeedsTemp(v) && OffsetOf(ls, first, caller, 0) == LS_SIZE - 1;
    var targets := TempTargets(ds, 0, ls, first, caller);
    assert targets == [OffsetOf(ls, first, caller, 0)] + [];
    assert targets[0] + 4 > LS_SIZE;
  }
}
