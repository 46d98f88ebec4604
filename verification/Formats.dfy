/** Scanning a format string (spebase/default_c99_handler.c, lines 347-542).

    A C string is a sequence of characters without NUL; the position behind its last
    character is that of the NUL. */
module Formats {

  predicate CString(f: string) { forall i :: 0 <= i < |f| ==> f[i] != '\0' }

  function At(f: string, p: nat): char
    requires p <= |f|
  {
    if p < |f| then f[p] else '\0'
  }

  predicate NoPercent(s: string) { forall i :: 0 <= i < |s| ==> s[i] != '%' }

  /** strchr: the first c at or behind p, the end of the string if there is none. */
  function Find(f: string, c: char, p: nat): (q: nat)
    requires p <= |f|
    ensures p <= q <= |f| && (q < |f| ==> f[q] == c)
    ensures forall i :: p <= i < q ==> f[i] != c
    decreases |f| - p
  {
    if p == |f| || f[p] == c then p else Find(f, c, p + 1)
  }

  // ---------- classes of characters ----------

  predicate IsDigit(c: char) { '0' <= c <= '9' }
  predicate IsFlag(c: char) { c == '#' || c == '0' || c == '-' || c == '+' || c == ' ' }
  predicate IsStar(c: char) { c == '*' }
  predicate IsLength(c: char) { c == 'h' || c == 'l' || c == 'j' || c == 'z' || c == 't' }

  predicate All(s: string, cls: char -> bool) { forall i :: 0 <= i < |s| ==> cls(s[i]) }

  /** The text s stands at position p. */
  predicate Matches(f: string, p: nat, s: string) {
    p + |s| <= |f| && forall i :: 0 <= i < |s| ==> f[p + i] == s[i]
  }

  lemma MatchesFits(f: string, p: nat, s: string)
    requires Matches(f, p, s)
    ensures p + |s| <= |f|
  {}

  lemma MatchesHead(f: string, p: nat, s: string)
    requires Matches(f, p, s) && |s| > 0
    ensures f[p] == s[0]
  {
    assert f[p + 0] == s[0];
  }

  /** The end of the characters of a class that stand at p. */
  function SpanEnd(f: string, p: nat, cls: char -> bool): (q: nat)
    requires p <= |f|
    ensures p <= q <= |f|
    ensures forall i :: p <= i < q ==> cls(f[i])
    ensures q < |f| ==> !cls(f[q])
    decreases |f| - p
  {
    if p < |f| && cls(f[p]) then SpanEnd(f, p + 1, cls) else p
  }

  lemma SpanIs(f: string, p: nat, s: string, cls: char -> bool)
    requires Matches(f, p, s) && All(s, cls) && p + |s| < |f| && !cls(f[p + |s|])
    ensures SpanEnd(f, p, cls) == p + |s|
  {
    forall j | p <= j < p + |s| ensures cls(f[j]) { assert f[p + (j - p)] == s[j - p]; }
  }

  /** A loop that moves p over the characters of a class. */
  method Skip(f: string, p: nat, cls: char -> bool) returns (q: nat)
    requires p <= |f|
    ensures q == SpanEnd(f, p, cls)
  {
    q := p;
    while q < |f| && cls(f[q])
      invariant p <= q <= |f|
      invariant SpanEnd(f, q, cls) == SpanEnd(f, p, cls)
    {
      q := q + 1;
    }
  }

  // ---------- length modifiers ----------

  /** What a modifier makes of format_long: j sets 2, z and t set 1, each l adds 1. */
  function Lengthen(c: char, l: nat): nat {
    match c case 'l' => l + 1 case 'j' => 2 case 'z' => 1 case 't' => 1 case _ => l
  }

  function LongOf(f: string, p: nat, q: nat, l: nat): nat
    requires p <= q <= |f|
    decreases q - p
  {
    if p == q then l else LongOf(f, p + 1, q, Lengthen(f[p], l))
  }

  /** SKIP_LENGTH_MODIFIERS. */
  method SkipLength(f: string, p: nat) returns (q: nat, long: nat)
    requires p <= |f|
    ensures q == SpanEnd(f, p, IsLength)
    ensures long == LongOf(f, p, q, 0)
  {
    q, long := p, 0;
    ghost var e := SpanEnd(f, p, IsLength);
    while q < |f| && IsLength(f[q])
      invariant p <= q <= e <= |f|
      invariant SpanEnd(f, q, IsLength) == e
      invariant LongOf(f, q, e, long) == LongOf(f, p, e, 0)
    {
      match f[q] {
        case 'l' => long := long + 1;
        case 'j' => long := 2;
        case 'z' => long := 1;
        case 't' => long := 1;
        case _ =>
      }
      q := q + 1;
    }
  }

  // ---------- field width and precision ----------

  /** The end of the digits or of the star at p. */
  function WidthEnd(f: string, p: nat): (q: nat)
    requires p <= |f|
    ensures p <= q <= |f|
  {
    if p < |f| && IsDigit(f[p]) then SpanEnd(f, p, IsDigit) else if At(f, p) == '*' then p + 1 else p
  }

  function PrecisionEnd(f: string, p: nat): (q: nat)
    requires p <= |f|
    ensures p <= q <= |f|
  {
    if At(f, p) == '.' then WidthEnd(f, p + 1) else p
  }

  // ---------- the estimate of the number of arguments ----------

  function Percents(s: string): nat {
    if |s| == 0 then 0 else Percents(s[..|s| - 1]) + if s[|s| - 1] == '%' then 1 else 0
  }

  lemma {:induction false} NoPercents(s: string)
    requires NoPercent(s)
    ensures Percents(s) == 0
  {
    if |s| > 0 { NoPercents(s[..|s| - 1]); }
  }

  lemma {:induction false} PercentsAppend(a: string, b: string)
    ensures Percents(a + b) == Percents(a) + Percents(b)
  {
    if |b| == 0 {
      assert a + b == a;
    } else {
      assert (a + b)[..|a + b| - 1] == a + b[..|b| - 1];
      PercentsAppend(a, b[..|b| - 1]);
    }
  }

  lemma PercentsUpTo(f: string, p: nat, q: nat)
    requires p <= q <= |f| && forall i :: p <= i < q ==> f[i] != '%'
    ensures Percents(f[..q]) == Percents(f[..p])
    ensures q < |f| && f[q] == '%' ==> Percents(f[..q + 1]) == Percents(f[..p]) + 1
  {
    NoPercents(f[p..q]);
    PercentsAppend(f[..p], f[p..q]);
    assert f[..q] == f[..p] + f[p..q];
    if q < |f| { assert f[..q + 1][..q] == f[..q]; }
  }

  /** __nr_format_args: three times the number of percent signs. */
  method NrFormatArgs(f: string) returns (nr: nat)
    requires CString(f)
    ensures nr == 3 * Percents(f)
  {
    hide Percents;
    var p := 0;
    nr := 0;
    NoPercents(f[..0]);
    while p < |f|
      invariant p <= |f| && nr == Percents(f[..p])
      decreases |f| - p
    {
      var q := Find(f, '%', p);
      PercentsUpTo(f, p, q);
      p := q;
      if p == |f| { break; }
      p, nr := p + 1, nr + 1;
    }
    assert f[..p] == f;
    return nr * 3;
  }
}
