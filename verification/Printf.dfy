/** Marshalling the arguments of printf: `__parse_printf_format` of
    spebase/default_c99_handler.c, lines 544-643, on the 32-bit PowerPC.

    A format is given by its parts, as in section 7.19.6.1 of ISO/IEC 9899:1999, and the
    code scans the text made of them.  The length modifier L is not among the parts: the
    code does not know it. */
module Printf {
  import opened Bytes
  import opened Common
  import opened Formats
  import opened VarArgs
  import opened Directives

  datatype Width = NoWidth | Digits(d: string) | Star
  datatype Precision = NoPrecision | DotDigits(d: string) | DotStar
  datatype Length = Plain | HH | H | L | LL | J | Z | T

  /** One conversion specification; %% is the one with nothing but the conversion
      character '%'. */
  datatype Conversion = Conversion(flags: string, width: Width, precision: Precision, length: Length, c: char)

  // ---------- the text of a format ----------

  function WidthText(w: Width): string {
    match w
    case NoWidth => ""
    case Digits(d) => d
    case Star => "*"
  }

  function PrecisionText(p: Precision): string {
    match p
    case NoPrecision => ""
    case DotDigits(d) => "." + d
    case DotStar => ".*"
  }

  function LengthText(l: Length): string {
    match l
    case Plain => ""
    case HH => "hh"
    case H => "h"
    case L => "l"
    case LL => "ll"
    case J => "j"
    case Z => "z"
    case T => "t"
  }

  function Text(v: Conversion): string {
    "%" + (v.flags + (WidthText(v.width) + (PrecisionText(v.precision) + (LengthText(v.length) + [v.c]))))
  }

  predicate IsInteger(c: char) { c == 'd' || c == 'i' || c == 'o' || c == 'u' || c == 'x' || c == 'X' }
  predicate IsFloating(c: char) {
    c == 'a' || c == 'A' || c == 'e' || c == 'E' || c == 'f' || c == 'F' || c == 'g' || c == 'G'
  }

  /** The combinations the standard defines. */
  predicate ValidConversion(v: Conversion) {
    && All(v.flags, IsFlag)
    && (v.width.Digits? ==> |v.width.d| > 0 && All(v.width.d, IsDigit) && v.width.d[0] != '0')
    && (v.precision.DotDigits? ==> All(v.precision.d, IsDigit))
    && match v.c
       case '%' => v == Conversion("", NoWidth, NoPrecision, Plain, '%')
       case 'p' => v.length.Plain?
       case 'c' => v.length in {Plain, L}
       case 's' => v.length in {Plain, L}
       case 'n' => true
       case _ => IsInteger(v.c) || (IsFloating(v.c) && v.length in {Plain, L})
  }

  // ---------- the arguments a format asks for ----------

  /** The type of the argument that is converted; none for %%. */
  function ConvertedType(l: Length, c: char): seq<CType> {
    if IsInteger(c) then [if l in {LL, J} then LongLong else Int]
    else if IsFloating(c) then [Double]
    else match c
      case 'c' => [Int]
      case 'p' => [Address]
      case 's' => [Pointer]
      case 'n' => [Pointer]
      case _ => []
  }

  /** A star takes an int ahead of the argument converted. */
  function StarTypes(v: Conversion): seq<CType> {
    (if v.width.Star? then [Int] else []) + (if v.precision.DotStar? then [Int] else [])
  }

  function Types(v: Conversion): seq<CType> { StarTypes(v) + ConvertedType(v.length, v.c) }

  /** The conversions of section 7.19.6.1, spelled out: what the standard defines, short of
      the modifier L, is among the formats, with its text and its arguments. */
  lemma EveryConversion(v: Conversion)
    requires forall i :: 0 <= i < |v.flags| ==> v.flags[i] in {'-', '+', ' ', '#', '0'}
    requires v.width.Digits? ==> |v.width.d| > 0 && v.width.d[0] != '0' && AllDecimal(v.width.d)
    requires v.precision.DotDigits? ==> AllDecimal(v.precision.d)
    requires
      || v.c in {'d', 'i', 'o', 'u', 'x', 'X', 'n'}
      || (v.c in {'a', 'A', 'e', 'E', 'f', 'F', 'g', 'G', 'c', 's'} && v.length in {Plain, L})
      || (v.c == 'p' && v.length.Plain?)
    ensures ValidConversion(v)
    ensures v.c in {'d', 'i', 'o', 'u', 'x', 'X'} ==>
      ConvertedType(v.length, v.c) == [if v.length.LL? || v.length.J? then LongLong else Int]
    ensures v.c in {'a', 'A', 'e', 'E', 'f', 'F', 'g', 'G'} ==> ConvertedType(v.length, v.c) == [Double]
    ensures v.c == 'c' ==> ConvertedType(v.length, v.c) == [Int]
    ensures v.c == 'p' ==> ConvertedType(v.length, v.c) == [Address]
    ensures v.c == 's' || v.c == 'n' ==> ConvertedType(v.length, v.c) == [Pointer]
  {}

  predicate AllDecimal(d: string) {
    forall i :: 0 <= i < |d| ==> d[i] in {'0', '1', '2', '3', '4', '5', '6', '7', '8', '9'}
  }

  lemma EveryModifier()
    ensures LengthText(Plain) == "" && LengthText(HH) == "hh" && LengthText(H) == "h" && LengthText(L) == "l"
    ensures LengthText(LL) == "ll" && LengthText(J) == "j" && LengthText(Z) == "z" && LengthText(T) == "t"
    ensures WidthText(Star) == "*" && PrecisionText(DotStar) == ".*" && PrecisionText(DotDigits("7")) == ".7"
  {}

  // ---------- the text in place ----------

  /** The lengths of the parts of a conversion, summed up from its percent sign. */
  function WidthAt(v: Conversion): nat { 1 + |v.flags| }
  function PrecisionAt(v: Conversion): nat { WidthAt(v) + |WidthText(v.width)| }
  function LengthAt(v: Conversion): nat { PrecisionAt(v) + |PrecisionText(v.precision)| }
  function CharAt(v: Conversion): nat { LengthAt(v) + |LengthText(v.length)| }

  /** A conversion stands at position p of f. */
  predicate Stands(f: string, p: nat, v: Conversion) {
    && p + CharAt(v) < |f|
    && f[p] == '%'
    && Matches(f, p + 1, v.flags)
    && Matches(f, p + WidthAt(v), WidthText(v.width))
    && Matches(f, p + PrecisionAt(v), PrecisionText(v.precision))
    && Matches(f, p + LengthAt(v), LengthText(v.length))
    && f[p + CharAt(v)] == v.c
  }

  lemma TextStands(f: string, p: nat, v: Conversion)
    requires Matches(f, p, Text(v))
    ensures Stands(f, p, v) && |Text(v)| == CharAt(v) + 1
  {
    hide Matches, LengthText, PrecisionText, WidthText;
    MatchesFits(f, p, Text(v));
    var t4 := LengthText(v.length) + [v.c];
    var t3 := PrecisionText(v.precision) + t4;
    var t2 := WidthText(v.width) + t3;
    var t1 := v.flags + t2;
    MatchesPart(f, p, "%", t1);
    MatchesPart(f, p + 1, v.flags, t2);
    MatchesPart(f, p + WidthAt(v), WidthText(v.width), t3);
    MatchesPart(f, p + PrecisionAt(v), PrecisionText(v.precision), t4);
    MatchesPart(f, p + LengthAt(v), LengthText(v.length), [v.c]);
    MatchesHead(f, p, "%");
    MatchesHead(f, p + CharAt(v), [v.c]);
  }

  /** Every macro stops where its part of the conversion ends, and a star is where the
      conversion has one. */
  lemma FlagsScanned(f: string, p: nat, v: Conversion)
    requires Stands(f, p, v) && ValidConversion(v)
    ensures SpanEnd(f, p + 1, IsFlag) == p + WidthAt(v)
  {
    hide Matches, SpanEnd;
    HeadOfWidth(f, p, v);
    SpanIs(f, p + 1, v.flags, IsFlag);
  }

  lemma HeadOfLength(f: string, p: nat, v: Conversion)
    requires Stands(f, p, v) && ValidConversion(v)
    ensures f[p + LengthAt(v)] in {'h', 'l', 'j', 'z', 't', v.c}
    ensures !IsDigit(v.c) && v.c != '.' && v.c != '*' && !IsFlag(v.c) && !IsLength(v.c)
  {
    hide Matches;
    if !v.length.Plain? { MatchesHead(f, p + LengthAt(v), LengthText(v.length)); }
  }

  lemma HeadOfPrecision(f: string, p: nat, v: Conversion)
    requires Stands(f, p, v) && ValidConversion(v)
    ensures f[p + PrecisionAt(v)] in {'.', 'h', 'l', 'j', 'z', 't', v.c}
    ensures f[p + PrecisionAt(v)] == '.' <==> !v.precision.NoPrecision?
  {
    hide Matches;
    HeadOfLength(f, p, v);
    if !v.precision.NoPrecision? { MatchesHead(f, p + PrecisionAt(v), PrecisionText(v.precision)); }
  }

  lemma HeadOfWidth(f: string, p: nat, v: Conversion)
    requires Stands(f, p, v) && ValidConversion(v)
    ensures !IsFlag(f[p + WidthAt(v)])
  {
    hide Matches;
    HeadOfPrecision(f, p, v);
    HeadOfLength(f, p, v);
    if !v.width.NoWidth? { MatchesHead(f, p + WidthAt(v), WidthText(v.width)); }
  }

  lemma WidthScanned(f: string, p: nat, v: Conversion)
    requires Stands(f, p, v) && ValidConversion(v)
    ensures WidthEnd(f, p + WidthAt(v)) == p + PrecisionAt(v)
    ensures f[p + WidthAt(v)] == '*' <==> v.width.Star?
  {
    hide Matches, SpanEnd;
    HeadOfPrecision(f, p, v);
    HeadOfLength(f, p, v);
    if !v.width.NoWidth? { MatchesHead(f, p + WidthAt(v), WidthText(v.width)); }
    if v.width.Digits? {
      SpanIs(f, p + WidthAt(v), v.width.d, IsDigit);
    }
  }

  lemma PrecisionScanned(f: string, p: nat, v: Conversion)
    requires Stands(f, p, v) && ValidConversion(v)
    ensures PrecisionEnd(f, p + PrecisionAt(v)) == p + LengthAt(v)
    ensures f[p + PrecisionAt(v)] == '.' && At(f, p + PrecisionAt(v) + 1) == '*' <==> v.precision.DotStar?
  {
    HeadOfPrecision(f, p, v);
    HeadOfLength(f, p, v);
    var q := p + PrecisionAt(v);
    match v.precision
    case NoPrecision =>
    case DotStar => assert f[q + 1] == ".*"[1];
    case DotDigits(d) =>
      forall i | 0 <= i < |d| ensures f[q + 1 + i] == d[i] { assert f[q + (i + 1)] == ("." + d)[i + 1]; }
      if |d| > 0 {
        assert f[q + 1 + 0] == d[0];
        SpanIs(f, q + 1, d, IsDigit);
      }
  }

  /** What the modifiers leave in format_long. */
  function Longness(l: Length): nat {
    match l case L => 1 case LL => 2 case J => 2 case Z => 1 case T => 1 case _ => 0
  }

  lemma LengthStands(f: string, q: nat, l: Length)
    requires Matches(f, q, LengthText(l)) && q + |LengthText(l)| < |f| && !IsLength(f[q + |LengthText(l)|])
    ensures SpanEnd(f, q, IsLength) == q + |LengthText(l)|
    ensures LongOf(f, q, q + |LengthText(l)|, 0) == Longness(l)
  {
    SpanIs(f, q, LengthText(l), IsLength);
    if l in {HH, LL} {
      assert f[q + 0] == LengthText(l)[0] && f[q + 1] == LengthText(l)[1];
      LongOfTwo(f, q);
    } else if !l.Plain? {
      assert f[q + 0] == LengthText(l)[0];
      LongOfOne(f, q, 0);
    }
  }

  lemma LongOfOne(f: string, q: nat, l: nat)
    requires q < |f|
    ensures LongOf(f, q, q + 1, l) == Lengthen(f[q], l)
  {
    assert LongOf(f, q + 1, q + 1, Lengthen(f[q], l)) == Lengthen(f[q], l);
  }

  lemma LongOfTwo(f: string, q: nat)
    requires q + 1 < |f|
    ensures LongOf(f, q, q + 2, 0) == Lengthen(f[q + 1], Lengthen(f[q], 0))
  {
    LongOfOne(f, q + 1, Lengthen(f[q], 0));
  }

  lemma LengthScanned(f: string, p: nat, v: Conversion)
    requires Stands(f, p, v) && ValidConversion(v)
    ensures SpanEnd(f, p + LengthAt(v), IsLength) == p + CharAt(v)
    ensures SwitchTypes(LongOf(f, p + LengthAt(v), p + CharAt(v), 0), v.c) == ConvertedType(v.length, v.c)
  {
    hide Matches, SpanEnd, LongOf;
    HeadOfLength(f, p, v);
    LengthStands(f, p + LengthAt(v), v.length);
  }

  /** The argument the switch statement fetches. */
  function SwitchTypes(long: nat, c: char): seq<CType> {
    if IsInteger(c) then [if long == 2 then LongLong else Int]
    else if IsFloating(c) then [Double]
    else if c == 'c' then [Int]
    else if c == 'p' then [Address]
    else if c == 's' || c == 'n' then [Pointer]
    else []
  }

  // ---------- the code ----------

  /** The variables of one call, the arguments stored so far being those of `types`. */
  ghost predicate Storing(ls: array<Byte>, base: Word, vl: SpeVaList, buf: array<Byte>, cur: nat,
                          types: seq<CType>, first: Word)
    reads ls, vl, buf
  {
    && ls.Length == LS_SIZE && ls != buf && vl.nextArg % 16 == 0
    && Marshalled(buf[..], cur, vl.nextArg, types, ls[..], base, first, vl.callerStack)
  }

  /** SKIP_FIELD_WIDTH; `output` says that a star takes an argument. */
  method SkipFieldWidth(f: string, p: nat, output: bool, ls: array<Byte>, base: Word, vl: SpeVaList,
                        buf: array<Byte>, cur: nat, ghost types: seq<CType>, ghost first: Word)
    returns (q: nat, cur': nat)
    requires p <= |f| && Storing(ls, base, vl, buf, cur, types, first) && cur + 4 <= buf.Length
    modifies vl, buf
    ensures q == WidthEnd(f, p)
    ensures Storing(ls, base, vl, buf, cur', types + (if output && At(f, p) == '*' then [Int] else []), first)
    ensures cur' <= cur + 4
  {
    q, cur' := p, cur;
    assert types + [] == types;
    if p < |f| && IsDigit(f[p]) {
      q := Skip(f, p, IsDigit);
    } else if At(f, p) == '*' {
      if output {
        cur' := PutArg(ls, base, vl, buf, cur, Int, types, first);
      }
      q := p + 1;
    }
  }

  /** SKIP_PRECISION. */
  method SkipPrecision(f: string, p: nat, ls: array<Byte>, base: Word, vl: SpeVaList,
                       buf: array<Byte>, cur: nat, ghost types: seq<CType>, ghost first: Word)
    returns (q: nat, cur': nat)
    requires p <= |f| && Storing(ls, base, vl, buf, cur, types, first) && cur + 4 <= buf.Length
    modifies vl, buf
    ensures q == PrecisionEnd(f, p)
    ensures Storing(ls, base, vl, buf, cur',
                    types + (if At(f, p) == '.' && At(f, p + 1) == '*' then [Int] else []), first)
    ensures cur' <= cur + 4
  {
    q, cur' := p, cur;
    assert types + [] == types;
    if At(f, p) == '.' {
      q := p + 1;
      if q < |f| && IsDigit(f[q]) {
        q := Skip(f, q, IsDigit);
      } else if At(f, q) == '*' {
        cur' := PutArg(ls, base, vl, buf, cur, Int, types, first);
        q := q + 1;
      }
    }
  }

  /** The switch over the conversion character. */
  method PutConverted(c: char, long: nat, ls: array<Byte>, base: Word, vl: SpeVaList,
                      buf: array<Byte>, cur: nat, ghost types: seq<CType>, ghost first: Word)
    returns (cur': nat)
    requires Storing(ls, base, vl, buf, cur, types, first) && cur + 12 <= buf.Length
    modifies vl, buf
    ensures Storing(ls, base, vl, buf, cur', types + SwitchTypes(long, c), first)
    ensures cur' <= cur + 12
  {
    cur' := cur;
    if IsInteger(c) && long == 2 {
      cur' := PutArg(ls, base, vl, buf, cur, LongLong, types, first);
    } else if IsInteger(c) || c == 'c' {
      cur' := PutArg(ls, base, vl, buf, cur, Int, types, first);
    } else if IsFloating(c) {
      cur' := PutArg(ls, base, vl, buf, cur, Double, types, first);
    } else if c == 'p' {
      cur' := PutArg(ls, base, vl, buf, cur, Address, types, first);
    } else if c == 's' || c == 'n' {
      cur' := PutArg(ls, base, vl, buf, cur, Pointer, types, first);
    } else {
      assert types + [] == types;
    }
  }

  /** Where the scan of a conversion gets to, macro by macro. */
  lemma ConversionScanned(f: string, s: nat, v: Conversion)
    requires Stands(f, s, v) && ValidConversion(v)
    ensures var w, r, l, c := s + WidthAt(v), s + PrecisionAt(v), s + LengthAt(v), s + CharAt(v);
      && c < |f| && f[c] == v.c
      && SpanEnd(f, s + 1, IsFlag) == w
      && WidthEnd(f, w) == r && (At(f, w) == '*' <==> v.width.Star?)
      && PrecisionEnd(f, r) == l && (At(f, r) == '.' && At(f, r + 1) == '*' <==> v.precision.DotStar?)
      && SpanEnd(f, l, IsLength) == c
      && SwitchTypes(LongOf(f, l, c, 0), v.c) == ConvertedType(v.length, v.c)
  {
    FlagsScanned(f, s, v);
    WidthScanned(f, s, v);
    PrecisionScanned(f, s, v);
    LengthScanned(f, s, v);
  }

  /** Flags, width and precision: from behind the percent sign at s to the length
      modifier. */
  method ParseStars(f: string, p: nat, ghost s: nat, ghost v: Conversion,
                    ls: array<Byte>, base: Word, vl: SpeVaList,
                    buf: array<Byte>, cur: nat, ghost types: seq<CType>, ghost first: Word)
    returns (q: nat, cur': nat)
    requires p == s + 1 && Stands(f, s, v) && ValidConversion(v)
    requires Storing(ls, base, vl, buf, cur, types, first) && cur + 8 <= buf.Length
    modifies vl, buf
    ensures q == s + LengthAt(v)
    ensures Storing(ls, base, vl, buf, cur', types + StarTypes(v), first)
    ensures cur' <= cur + 8
  {
    hide *;
    ConversionScanned(f, s, v);
    SplitTypes(types, v);
    q := Skip(f, p, IsFlag);
    q, cur' := SkipFieldWidth(f, q, true, ls, base, vl, buf, cur, types, first);
    ghost var t1 := if v.width.Star? then [Int] else [];
    q, cur' := SkipPrecision(f, q, ls, base, vl, buf, cur', types + t1, first);
  }

  /** The types of a conversion, stored one after the other. */
  lemma SplitTypes(types: seq<CType>, v: Conversion)
    ensures types + StarTypes(v) ==
      types + (if v.width.Star? then [Int] else []) + (if v.precision.DotStar? then [Int] else [])
    ensures types + Types(v) == types + StarTypes(v) + ConvertedType(v.length, v.c)
  {}

  /** The body of the loop: one conversion, from behind its percent sign to the conversion
      character. */
  method ParseConversion(f: string, p: nat, ghost s: nat, ghost v: Conversion,
                         ls: array<Byte>, base: Word, vl: SpeVaList,
                         buf: array<Byte>, cur: nat, ghost types: seq<CType>, ghost first: Word)
    returns (q: nat, cur': nat)
    requires p == s + 1 && Stands(f, s, v) && ValidConversion(v)
    requires Storing(ls, base, vl, buf, cur, types, first) && cur + 20 <= buf.Length
    modifies vl, buf
    ensures q == s + CharAt(v)
    ensures Storing(ls, base, vl, buf, cur', types + Types(v), first)
    ensures cur' <= cur + 20
  {
    hide *;
    SplitTypes(types, v);
    q, cur' := ParseStars(f, p, s, v, ls, base, vl, buf, cur, types, first);
    ConversionScanned(f, s, v);
    var long: nat;
    q, long := SkipLength(f, q);
    cur' := PutConverted(f[q], long, ls, base, vl, buf, cur', types + StarTypes(v), first);
  }

  lemma TextHead()
    ensures forall v: Conversion :: Text(v) != [] && Text(v)[0] == '%'
  {}

  /** The next conversion stands where strchr finds a percent sign. */
  lemma NextConversion(f: string, p: nat, ds: seq<Directive<Conversion>>, k: nat, tail: string)
    requires p <= |f| && k <= |ds| && Follows(Text, f, p, ds[k..], tail) && ValidFormat(ValidConversion, ds, tail)
    ensures Find(f, '%', p) == |f| <==> k == |ds|
    ensures k < |ds| ==>
      var q, v := Find(f, '%', p), ds[k].conv;
      && Stands(f, q, v) && ValidConversion(v) && q + CharAt(v) < |f|
      && Follows(Text, f, q + CharAt(v) + 1, ds[k + 1..], tail)
  {
    TextHead();
    hide Text, ValidConversion, Follows, ValidFormat, Matches;
    NextDirective(Text, ValidConversion, f, p, ds, k, tail);
    if k < |ds| { TextStands(f, Find(f, '%', p), ds[k].conv); }
  }

  lemma NothingStored(ls: array<Byte>, base: Word, vl: SpeVaList, buf: array<Byte>)
    requires ls.Length == LS_SIZE && ls != buf && vl.nextArg % 16 == 0
    ensures Storing(ls, base, vl, buf, 0, [], vl.nextArg)
  {}

  /** __parse_printf_format with nr arguments estimated. */
  method ParsePrintfFormat(f: string, ghost ds: seq<Directive<Conversion>>, ghost tail: string, nr: nat,
                           ls: array<Byte>, base: Word, vl: SpeVaList, buf: array<Byte>)
    returns (rc: int, cur: nat)
    requires ValidFormat(ValidConversion, ds, tail) && f == Render(Text, ds, tail) && nr == 3 * Percents(f)
    requires ls.Length == LS_SIZE && ls != buf && vl.nextArg % 16 == 0 && buf.Length == 8 * (nr + 1)
    modifies vl, buf
    ensures rc == 0 && cur <= 8 * nr
    ensures Storing(ls, base, vl, buf, cur, Gather(Types, ds), old(vl.nextArg))
  {
    TextHead();
    hide *;
    ghost var first, k := vl.nextArg, 0;
    PercentsCover(Text, ds, tail);
    WholeFormat(Text, Types, f, ds, tail);
    NothingStored(ls, base, vl, buf);
    var p: nat, left: nat := 0, nr;
    cur := 0;
    while left > 0 && p < |f|
      invariant p <= |f| && k <= |ds| && left == nr - k
      invariant Follows(Text, f, p, ds[k..], tail)
      invariant Storing(ls, base, vl, buf, cur, Gather(Types, ds[..k]), first)
      invariant cur <= 20 * k
      decreases left
    {
      var q := Find(f, '%', p);
      NextConversion(f, p, ds, k, tail);
      if q == |f| { break; }
      GatherStep(Types, ds, k);
      p := q + 1;
      left := left - 1;
      p, cur := ParseConversion(f, p, q, ds[k].conv, ls, base, vl, buf, cur, Gather(Types, ds[..k]), first);
      p := p + 1;
      k := k + 1;
    }
    NextConversion(f, p, ds, k, tail);
    rc := 0;
  }

  /** The two calls of a printf handler: estimate, allocate and marshal.  A va_arg reader
      that knows the types section 7.19.6.1 prescribes finds every argument of the SPE, in
      order, and no more than the estimated 8 * nr bytes were written. */
  method MarshalPrintf(f: string, ghost ds: seq<Directive<Conversion>>, ghost tail: string,
                       ls: array<Byte>, base: Word, vl: SpeVaList)
    returns (rc: int, buf: array<Byte>, nr: nat, cur: nat)
    requires ValidFormat(ValidConversion, ds, tail) && f == Render(Text, ds, tail) && CString(f)
    requires ls.Length == LS_SIZE && vl.nextArg % 16 == 0
    modifies vl
    ensures rc == 0 && fresh(buf) && buf.Length == 8 * (nr + 1)
    ensures cur == End(0, Gather(Types, ds)) <= 8 * nr
    ensures ReadAll(buf[..], 0, Gather(Types, ds)) ==
            Expected(ls[..], base, old(vl.nextArg), vl.callerStack, Gather(Types, ds))
    ensures AreArguments(ReadAll(buf[..], 0, Gather(Types, ds)), Gather(Types, ds), ls[..], base,
                         old(vl.nextArg), vl.callerStack)
    ensures vl.nextArg == Slot(old(vl.nextArg), vl.callerStack, |Gather(Types, ds)|)
  {
    nr := NrFormatArgs(f);
    buf := new Byte[8 * (nr + 1)];
    rc, cur := ParsePrintfFormat(f, ds, tail, nr, ls, base, vl, buf);
    ExpectedAreArguments(ls[..], base, old(vl.nextArg), vl.callerStack, Gather(Types, ds));
  }
}
