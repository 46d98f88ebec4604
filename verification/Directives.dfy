/** Formats made of conversions of any kind: ordinary text, a conversion, and so on, with
    text behind the last.  What a conversion looks like and which arguments it takes is
    given by functions. */
module Directives {
  import opened Formats

  /** A conversion with the ordinary characters in front of it. */
  datatype Directive<C> = Directive(text: string, conv: C)

  function Render<C>(show: C -> string, ds: seq<Directive<C>>, tail: string): string {
    if |ds| == 0 then tail else ds[0].text + (show(ds[0].conv) + Render(show, ds[1..], tail))
  }

  /** The arguments of all conversions, in order. */
  function Gather<C, T>(types: C -> seq<T>, ds: seq<Directive<C>>): seq<T> {
    if |ds| == 0 then [] else types(ds[0].conv) + Gather(types, ds[1..])
  }

  predicate ValidText(s: string) { CString(s) && NoPercent(s) }

  predicate ValidFormat<C>(valid: C -> bool, ds: seq<Directive<C>>, tail: string) {
    && ValidText(tail)
    && forall i :: 0 <= i < |ds| ==> ValidText(ds[i].text) && valid(ds[i].conv)
  }

  /** The rest of f, from position p on, is a format made of the given parts. */
  predicate Follows<C>(show: C -> string, f: string, p: nat, ds: seq<Directive<C>>, tail: string)
    decreases ds
  {
    if |ds| == 0 then Matches(f, p, tail) && p + |tail| == |f|
    else
      && Matches(f, p, ds[0].text)
      && Matches(f, p + |ds[0].text|, show(ds[0].conv))
      && Follows(show, f, p + |ds[0].text| + |show(ds[0].conv)|, ds[1..], tail)
  }

  lemma MatchesPart(f: string, p: nat, a: string, b: string)
    requires Matches(f, p, a + b)
    ensures Matches(f, p, a) && Matches(f, p + |a|, b)
  {
    assert forall i :: 0 <= i < |a| ==> a[i] == (a + b)[i];
    forall i | 0 <= i < |b| ensures f[p + |a| + i] == b[i] { assert b[i] == (a + b)[|a| + i]; }
  }

  /** Where the text of a format stands up to the end, its parts follow one another. */
  lemma {:induction false} RenderFollows<C>(show: C -> string, f: string, p: nat, ds: seq<Directive<C>>, tail: string)
    requires Matches(f, p, Render(show, ds, tail)) && p + |Render(show, ds, tail)| == |f|
    ensures Follows(show, f, p, ds, tail)
    decreases ds
  {
    hide Matches;
    if |ds| > 0 {
      var v, rest := show(ds[0].conv), Render(show, ds[1..], tail);
      MatchesPart(f, p, ds[0].text, v + rest);
      MatchesPart(f, p + |ds[0].text|, v, rest);
      RenderFollows(show, f, p + |ds[0].text| + |v|, ds[1..], tail);
    }
  }

  lemma WholeFormat<C, T>(show: C -> string, types: C -> seq<T>, f: string, ds: seq<Directive<C>>, tail: string)
    requires f == Render(show, ds, tail)
    ensures Follows(show, f, 0, ds[0..], tail) && Gather(types, ds[..0]) == [] && ds[..|ds|] == ds
  {
    RenderFollows(show, f, 0, ds, tail);
    assert ds[0..] == ds;
  }

  /** strchr finds the percent sign of the next conversion, or none behind the last. */
  lemma DirectiveFound<C>(show: C -> string, valid: C -> bool, f: string, p: nat, ds: seq<Directive<C>>, tail: string)
    requires p <= |f| && Follows(show, f, p, ds, tail) && ValidFormat(valid, ds, tail)
    requires forall v :: valid(v) ==> show(v) != [] && show(v)[0] == '%'
    ensures Find(f, '%', p) == if |ds| > 0 then p + |ds[0].text| else |f|
    ensures |ds| > 0 ==>
      var q, v := p + |ds[0].text|, ds[0].conv;
      Matches(f, q, show(v)) && valid(v) && q < |f| && Follows(show, f, q + |show(v)|, ds[1..], tail)
  {
    var s := if |ds| > 0 then ds[0].text else tail;
    forall j | p <= j < p + |s| ensures f[j] != '%' { assert f[p + (j - p)] == s[j - p]; }
    if |ds| > 0 { MatchesHead(f, p + |s|, show(ds[0].conv)); }
  }

  lemma ValidSuffix<C>(valid: C -> bool, ds: seq<Directive<C>>, k: nat, tail: string)
    requires k <= |ds| && ValidFormat(valid, ds, tail)
    ensures ValidFormat(valid, ds[k..], tail)
  {
    hide ValidText;
  }

  lemma NextDirective<C>(show: C -> string, valid: C -> bool, f: string, p: nat, ds: seq<Directive<C>>, k: nat,
                         tail: string)
    requires p <= |f| && k <= |ds| && Follows(show, f, p, ds[k..], tail) && ValidFormat(valid, ds, tail)
    requires forall v :: valid(v) ==> show(v) != [] && show(v)[0] == '%'
    ensures Find(f, '%', p) == |f| <==> k == |ds|
    ensures k < |ds| ==>
      var q, v := Find(f, '%', p), ds[k].conv;
      Matches(f, q, show(v)) && valid(v) && Follows(show, f, q + |show(v)|, ds[k + 1..], tail)
  {
    hide *;
    ValidSuffix(valid, ds, k, tail);
    DirectiveFound(show, valid, f, p, ds[k..], tail);
    if k < |ds| { assert ds[k..][0] == ds[k] && ds[k..][1..] == ds[k + 1..]; }
  }

  /** The estimate covers every conversion. */
  lemma {:induction false} PercentsCover<C>(show: C -> string, ds: seq<Directive<C>>, tail: string)
    requires forall i :: 0 <= i < |ds| ==> show(ds[i].conv) != [] && show(ds[i].conv)[0] == '%'
    ensures Percents(Render(show, ds, tail)) >= |ds|
  {
    if |ds| > 0 {
      var t, rest := show(ds[0].conv), Render(show, ds[1..], tail);
      PercentsCover(show, ds[1..], tail);
      PercentsAppend(ds[0].text, t + rest);
      PercentsAppend(t, rest);
      assert t == "%" + t[1..];
      PercentsAppend("%", t[1..]);
      assert Percents("%") == 1;
    }
  }

  lemma {:induction false} GatherStep<C, T>(types: C -> seq<T>, ds: seq<Directive<C>>, k: nat)
    requires k < |ds|
    ensures Gather(types, ds[..k + 1]) == Gather(types, ds[..k]) + types(ds[k].conv)
  {
    if k == 0 {
      assert ds[..1][1..] == [] && ds[..0] == [];
    } else {
      GatherStep(types, ds[1..], k - 1);
      assert ds[..k + 1][1..] == ds[1..][..k] && ds[..k][1..] == ds[1..][..k - 1];
    }
  }
}
