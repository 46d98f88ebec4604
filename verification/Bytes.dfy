/** Big-endian storage of integers, as on the PowerPC and the SPU. */
module Bytes {

  type Byte = x: int | 0 <= x < 256
  type Word = x: int | 0 <= x < 0x1_0000_0000

  function Pow256(n: nat): (r: nat)
    ensures r > 0
  {
    if n == 0 then 1 else 256 * Pow256(n - 1)
  }

  /** The n bytes of v, most significant first; higher bytes of v are dropped. */
  function BE(v: nat, n: nat): (r: seq<Byte>)
    ensures |r| == n
  {
    if n == 0 then [] else BE(v / 256, n - 1) + [v % 256]
  }

  function FromBE(b: seq<Byte>): (r: nat)
  {
    if |b| == 0 then 0 else 256 * FromBE(b[..|b| - 1]) + b[|b| - 1]
  }

  lemma {:induction false} FromBEBound(b: seq<Byte>)
    ensures FromBE(b) < Pow256(|b|)
  {
    if |b| > 0 { FromBEBound(b[..|b| - 1]); }
  }

  lemma {:induction false} RoundTrip(v: nat, n: nat)
    requires v < Pow256(n)
    ensures FromBE(BE(v, n)) == v
  {
    if n > 0 {
      RoundTrip(v / 256, n - 1);
      assert BE(v, n)[..n - 1] == BE(v / 256, n - 1);
    }
  }

  lemma {:induction false} RoundTripBytes(b: seq<Byte>)
    ensures BE(FromBE(b), |b|) == b
  {
    if |b| > 0 {
      var init := b[..|b| - 1];
      RoundTripBytes(init);
      assert FromBE(b) / 256 == FromBE(init) && FromBE(b) % 256 == b[|b| - 1];
      assert b == init + [b[|b| - 1]];
    }
  }

  lemma FromBEStep(b: seq<Byte>, n: nat)
    requires n < |b|
    ensures FromBE(b[..0]) == 0 && FromBE(b[..n + 1]) == 256 * FromBE(b[..n]) + b[n]
  {
    assert b[..n + 1][..n] == b[..n];
  }

  /** The first byte of a word or a halfword is its most significant one. */
  lemma BigEndian(b: seq<Byte>)
    ensures |b| == 4 ==>
      FromBE(b) == 0x100_0000 * (b[0] as int) + 0x1_0000 * (b[1] as int) + 0x100 * (b[2] as int) + b[3] as int
    ensures |b| == 2 ==> FromBE(b) == 0x100 * (b[0] as int) + b[1] as int
  {
    hide FromBE;
    assert b[..|b|] == b;
    if |b| == 4 || |b| == 2 {
      FromBEStep(b, 0);
      FromBEStep(b, 1);
    }
    if |b| == 4 {
      FromBEStep(b, 2);
      FromBEStep(b, 3);
    }
  }

  lemma WordRoundTrip(w: Word)
    ensures FromBE(BE(w, 4)) == w
  {
    assert Pow256(1) == 256 && Pow256(2) == 0x1_0000 && Pow256(3) == 0x100_0000 && Pow256(4) == 0x1_0000_0000;
    RoundTrip(w, 4);
  }

  /** A sequence of words as stored by memcpy. */
  function Words(ws: seq<Word>): (r: seq<Byte>)
    ensures |r| == 4 * |ws|
  {
    if |ws| == 0 then [] else BE(ws[0], 4) + Words(ws[1..])
  }

  lemma {:induction false} WordsAt(ws: seq<Word>, k: nat)
    requires k < |ws|
    ensures Words(ws)[4 * k..4 * k + 4] == BE(ws[k], 4)
  {
    if k > 0 {
      WordsAt(ws[1..], k - 1);
      assert Words(ws)[4 * k..4 * k + 4] == Words(ws[1..])[4 * (k - 1)..4 * (k - 1) + 4];
    }
  }

  /** Each word is read back from its four bytes. */
  lemma WordRead(ws: seq<Word>, k: nat)
    requires k < |ws|
    ensures FromBE(Words(ws)[4 * k..4 * k + 4]) == ws[k]
  {
    hide BE, FromBE, Words;
    WordsAt(ws, k);
    WordRoundTrip(ws[k]);
  }

  lemma {:induction false} WordsAppend(a: seq<Word>, b: seq<Word>)
    ensures Words(a + b) == Words(a) + Words(b)
  {
    if |a| == 0 {
      assert a + b == b;
    } else {
      assert (a + b)[1..] == a[1..] + b;
      WordsAppend(a[1..], b);
    }
  }

  /** memcpy into a mapped area. */
  method CopyIn(dst: array<Byte>, off: nat, src: seq<Byte>)
    requires off + |src| <= dst.Length
    modifies dst
    ensures dst[..] == old(dst[..])[..off] + src + old(dst[..])[off + |src|..]
  {
    forall i | 0 <= i < |src| {
      dst[off + i] := src[i];
    }
  }
}
