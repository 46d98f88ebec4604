/** The ELF loader of spebase/elf_loader.c, byte by byte.

    The program image is patched in place by its relocations and then copied, segment by
    segment, to local store.  Every write is a patch; the loop is compared with a plain
    statement of which byte ends up where. */
module ElfLoader {
  import opened Bytes
  import opened Common

  // ---------- patches ----------

  /** Some bytes written at some place. */
  datatype Patch = Patch(at: nat, bytes: seq<Byte>)

  predicate Fits(p: Patch, n: nat) { p.at + |p.bytes| <= n }

  predicate AllFit(ps: seq<Patch>, n: nat) { forall i :: 0 <= i < |ps| ==> Fits(ps[i], n) }

  predicate Hits(p: Patch, k: int) { p.at <= k < p.at + |p.bytes| }

  function Poke(m: seq<Byte>, p: Patch): (r: seq<Byte>)
    requires Fits(p, |m|)
    ensures |r| == |m|
  {
    m[..p.at] + p.bytes + m[p.at + |p.bytes|..]
  }

  function Apply(m: seq<Byte>, ps: seq<Patch>): (r: seq<Byte>)
    requires AllFit(ps, |m|)
    ensures |r| == |m|
  {
    if |ps| == 0 then m else Poke(Apply(m, ps[..|ps| - 1]), ps[|ps| - 1])
  }

  lemma ApplyOneMore(m: seq<Byte>, ps: seq<Patch>, p: Patch)
    requires AllFit(ps, |m|) && Fits(p, |m|)
    ensures AllFit(ps + [p], |m|) && Apply(m, ps + [p]) == Poke(Apply(m, ps), p)
  {
    assert (ps + [p])[..|ps|] == ps;
  }

  lemma {:induction false} ApplyAppend(m: seq<Byte>, a: seq<Patch>, b: seq<Patch>)
    requires AllFit(a, |m|) && AllFit(b, |m|)
    ensures AllFit(a + b, |m|) && Apply(m, a + b) == Apply(Apply(m, a), b)
    decreases |b|
  {
    if |b| == 0 {
      assert a + b == a;
    } else {
      assert (a + b)[..|a + b| - 1] == a + b[..|b| - 1];
      ApplyAppend(m, a, b[..|b| - 1]);
    }
  }

  /** What is at k in the end: the byte of the last patch that hits it, or what was there. */
  function Last(ps: seq<Patch>, k: int, was: Byte): Byte {
    if |ps| == 0 then was
    else
      var p := ps[|ps| - 1];
      if Hits(p, k) then p.bytes[k - p.at] else Last(ps[..|ps| - 1], k, was)
  }

  lemma {:induction false} ApplyAt(m: seq<Byte>, ps: seq<Patch>, k: nat)
    requires AllFit(ps, |m|) && k < |m|
    ensures Apply(m, ps)[k] == Last(ps, k, m[k])
  {
    if |ps| > 0 { ApplyAt(m, ps[..|ps| - 1], k); }
  }

  lemma {:induction false} LastAppend(a: seq<Patch>, b: seq<Patch>, k: int, was: Byte)
    ensures Last(a + b, k, was) == Last(b, k, Last(a, k, was))
    decreases |b|
  {
    if |b| == 0 {
      assert a + b == a;
    } else {
      assert (a + b)[..|a + b| - 1] == a + b[..|b| - 1];
      LastAppend(a, b[..|b| - 1], k, was);
    }
  }

  lemma {:induction false} LastTwice(ps: seq<Patch>, k: int, was: Byte)
    ensures Last(ps, k, Last(ps, k, was)) == Last(ps, k, was)
  {
    if |ps| > 0 && !Hits(ps[|ps| - 1], k) {
      LastOnce(ps[..|ps| - 1], k, was, Last(ps[..|ps| - 1], k, was));
    }
  }

  /** Either every starting value survives or none does. */
  lemma {:induction false} LastOnce(ps: seq<Patch>, k: int, a: Byte, b: Byte)
    ensures (Last(ps, k, a) == a && Last(ps, k, b) == b) || Last(ps, k, a) == Last(ps, k, b)
    ensures Last(ps, k, Last(ps, k, a)) == Last(ps, k, a)
  {
    if |ps| > 0 && !Hits(ps[|ps| - 1], k) {
      LastOnce(ps[..|ps| - 1], k, a, b);
    }
  }

  /** Patching twice is patching once, however the patches overlap. */
  lemma PatchTwice(m: seq<Byte>, ps: seq<Patch>)
    requires AllFit(ps, |m|)
    ensures Apply(Apply(m, ps), ps) == Apply(m, ps)
  {
    var once := Apply(m, ps);
    forall k | 0 <= k < |m| ensures Apply(once, ps)[k] == once[k] {
      ApplyAt(m, ps, k);
      ApplyAt(once, ps, k);
      LastTwice(ps, k, m[k]);
    }
  }

  // ---------- the tables of an image ----------

  /** What is read from outside the image reads as zero. */
  function Num(img: seq<Byte>, at: nat, n: nat): (r: nat) {
    if at + n <= |img| then FromBE(img[at..at + n]) else 0
  }

  datatype Rela = Rela(offset: nat, info: nat, addend: int)
  datatype Section = Section(name: nat, toe: bool, typ: nat, addr: nat, offset: nat, size: nat, info: nat,
                             relas: seq<Rela>)
  datatype Segment = Segment(typ: nat, offset: nat, vaddr: nat, filesz: nat, memsz: nat)
  datatype Elf = Elf(valid: bool, entry: nat, phoff: nat, shoff: nat, strndx: nat, strings: nat,
                     sections: seq<Section>, segments: seq<Segment>)

  const SHT_RELA := 4
  const PT_LOAD := 1
  const R_SPU_PPU32 := 15
  const R_SPU_PPU64 := 16
  const EHDR := 52
  const SHDR := 40
  const PHDR := 32
  const RELA := 12
  const EINVAL := 22

  /** check_spe_elf: identification, machine and type */
  function IsSpeElf(img: seq<Byte>): bool {
    && 9 <= |img| && img[..9] == [0x7F, 0x45, 0x4C, 0x46, 1, 2, 1, 0, 0]
    && Num(img, 18, 2) == 0x17
    && Num(img, 16, 2) == 2
  }

  /** strcmp(".toe", name) == 0 */
  function IsToe(img: seq<Byte>, at: nat): bool {
    at + 5 <= |img| && img[at..at + 5] == [0x2E, 0x74, 0x6F, 0x65, 0]
  }

  function Signed(w: nat): int { if w < 0x8000_0000 then w else w - 0x1_0000_0000 }

  function RelaAt(img: seq<Byte>, at: nat): Rela {
    Rela(Num(img, at, 4), Num(img, at + 4, 4), Signed(Num(img, at + 8, 4)))
  }

  /** The loop over r runs while r is below r_end. */
  function RelaCount(size: nat): nat { (size + RELA - 1) / RELA }

  function RelasAt(img: seq<Byte>, at: nat, n: nat): (rs: seq<Rela>)
    ensures |rs| == n
    ensures forall i :: 0 <= i < n ==> rs[i] == RelaAt(img, at + RELA * i)
  {
    if n == 0 then [] else RelasAt(img, at, n - 1) + [RelaAt(img, at + RELA * (n - 1))]
  }

  function SectionAt(img: seq<Byte>, at: nat, strings: nat): Section {
    var typ, offset, size := Num(img, at + 4, 4), Num(img, at + 16, 4), Num(img, at + 20, 4);
    Section(Num(img, at, 4), IsToe(img, strings + Num(img, at, 4)), typ, Num(img, at + 12, 4), offset, size,
            Num(img, at + 28, 4),
            if typ == SHT_RELA then RelasAt(img, offset, RelaCount(size)) else [])
  }

  function SegmentAt(img: seq<Byte>, at: nat): Segment {
    Segment(Num(img, at, 4), Num(img, at + 4, 4), Num(img, at + 8, 4), Num(img, at + 16, 4), Num(img, at + 20, 4))
  }

  function SectionsAt(img: seq<Byte>, at: nat, n: nat, strings: nat): (r: seq<Section>)
    ensures |r| == n
    ensures forall i :: 0 <= i < n ==> r[i] == SectionAt(img, at + SHDR * i, strings)
  {
    if n == 0 then [] else SectionsAt(img, at, n - 1, strings) + [SectionAt(img, at + SHDR * (n - 1), strings)]
  }

  function SegmentsAt(img: seq<Byte>, at: nat, n: nat): (r: seq<Segment>)
    ensures |r| == n
    ensures forall i :: 0 <= i < n ==> r[i] == SegmentAt(img, at + PHDR * i)
  {
    if n == 0 then [] else SegmentsAt(img, at, n - 1) + [SegmentAt(img, at + PHDR * (n - 1))]
  }

  function Strings(img: seq<Byte>): nat { Num(img, Num(img, 32, 4) + SHDR * Num(img, 50, 2) + 16, 4) }

  function Parse(img: seq<Byte>): Elf {
    Elf(IsSpeElf(img), Num(img, 24, 4), Num(img, 28, 4), Num(img, 32, 4), Num(img, 50, 2), Strings(img),
        SectionsAt(img, Num(img, 32, 4), Num(img, 48, 2), Strings(img)),
        SegmentsAt(img, Num(img, 28, 4), Num(img, 44, 2)))
  }

  // ---------- patches that leave the tables alone ----------

  predicate Apart(a: nat, la: nat, b: nat, lb: nat) { a + la <= b || b + lb <= a }

  predicate OffSection(s: Section, strings: nat, at: nat, n: nat) {
    && Apart(strings + s.name, 5, at, n)
    && (s.typ == SHT_RELA ==> Apart(s.offset, RELA * |s.relas|, at, n))
  }

  /** at..at+n lies outside the headers, the section names and the relocations. */
  predicate OffTables(e: Elf, at: nat, n: nat) {
    && Apart(0, EHDR, at, n)
    && Apart(e.shoff, SHDR * |e.sections|, at, n)
    && Apart(e.phoff, PHDR * |e.segments|, at, n)
    && forall i :: 0 <= i < |e.sections| ==> OffSection(e.sections[i], e.strings, at, n)
  }

  lemma NumPoke(img: seq<Byte>, p: Patch, at: nat, n: nat)
    requires Fits(p, |img|) && Apart(at, n, p.at, |p.bytes|)
    ensures Num(Poke(img, p), at, n) == Num(img, at, n)
  {
    if at + n <= |img| {
      assert Poke(img, p)[at..at + n] == img[at..at + n];
    }
  }

  lemma ToePoke(img: seq<Byte>, p: Patch, at: nat)
    requires Fits(p, |img|) && Apart(at, 5, p.at, |p.bytes|)
    ensures IsToe(Poke(img, p), at) == IsToe(img, at)
  {
    if at + 5 <= |img| {
      assert Poke(img, p)[at..at + 5] == img[at..at + 5];
    }
  }

  lemma {:induction false} RelasPoke(img: seq<Byte>, p: Patch, at: nat, n: nat)
    requires Fits(p, |img|) && Apart(at, RELA * n, p.at, |p.bytes|)
    ensures RelasAt(Poke(img, p), at, n) == RelasAt(img, at, n)
  {
    hide Poke, Num;
    if n > 0 {
      RelasPoke(img, p, at, n - 1);
      var a := at + RELA * (n - 1);
      NumPoke(img, p, a, 4);
      NumPoke(img, p, a + 4, 4);
      NumPoke(img, p, a + 8, 4);
    }
  }

  lemma SectionPoke(img: seq<Byte>, p: Patch, at: nat, strings: nat)
    requires Fits(p, |img|) && Apart(at, SHDR, p.at, |p.bytes|)
    requires OffSection(SectionAt(img, at, strings), strings, p.at, |p.bytes|)
    ensures SectionAt(Poke(img, p), at, strings) == SectionAt(img, at, strings)
  {
    hide Poke, Num, IsToe, RelasAt, RelaCount;
    var s := SectionAt(img, at, strings);
    NumPoke(img, p, at, 4);
    NumPoke(img, p, at + 4, 4);
    NumPoke(img, p, at + 12, 4);
    NumPoke(img, p, at + 16, 4);
    NumPoke(img, p, at + 20, 4);
    NumPoke(img, p, at + 28, 4);
    ToePoke(img, p, strings + s.name);
    if s.typ == SHT_RELA {
      RelasPoke(img, p, s.offset, RelaCount(s.size));
    }
  }

  lemma SegmentPoke(img: seq<Byte>, p: Patch, at: nat)
    requires Fits(p, |img|) && Apart(at, PHDR, p.at, |p.bytes|)
    ensures SegmentAt(Poke(img, p), at) == SegmentAt(img, at)
  {
    hide Poke, Num;
    NumPoke(img, p, at, 4);
    NumPoke(img, p, at + 4, 4);
    NumPoke(img, p, at + 8, 4);
    NumPoke(img, p, at + 16, 4);
    NumPoke(img, p, at + 20, 4);
  }

  lemma HeaderPoke(img: seq<Byte>, p: Patch)
    requires Fits(p, |img|) && Apart(0, EHDR, p.at, |p.bytes|)
    ensures IsSpeElf(Poke(img, p)) == IsSpeElf(img)
    ensures forall at, n :: 0 <= at && 0 <= n && at + n <= EHDR ==> Num(Poke(img, p), at, n) == Num(img, at, n)
  {
    forall at, n | 0 <= at && 0 <= n && at + n <= EHDR ensures Num(Poke(img, p), at, n) == Num(img, at, n) {
      NumPoke(img, p, at, n);
    }
    if 9 <= |img| {
      assert Poke(img, p)[..9] == img[..9];
    }
  }

  /** A patch off the tables does not change what the tables say. */
  lemma ParsePoke(img: seq<Byte>, p: Patch)
    requires Fits(p, |img|)
    requires Parse(img).strndx < |Parse(img).sections| && OffTables(Parse(img), p.at, |p.bytes|)
    ensures Parse(Poke(img, p)) == Parse(img)
  {
    hide Poke, Num, SectionAt, SegmentAt, IsSpeElf, SectionsAt, SegmentsAt, OffSection;
    var e, e' := Parse(img), Parse(Poke(img, p));
    HeaderPoke(img, p);
    StringsPoke(img, p);
    SectionsPoke(img, p, e);
    forall i | 0 <= i < |e.segments| ensures e'.segments[i] == e.segments[i] {
      SegmentPoke(img, p, e.phoff + PHDR * i);
    }
    assert e'.segments == e.segments;
  }

  lemma StringsPoke(img: seq<Byte>, p: Patch)
    requires Fits(p, |img|) && Apart(0, EHDR, p.at, |p.bytes|)
    requires Num(img, 50, 2) < Num(img, 48, 2) && Apart(Num(img, 32, 4), SHDR * Num(img, 48, 2), p.at, |p.bytes|)
    ensures Strings(Poke(img, p)) == Strings(img)
  {
    hide Poke, Num;
    NumPoke(img, p, 32, 4);
    NumPoke(img, p, 50, 2);
    NumPoke(img, p, Num(img, 32, 4) + SHDR * Num(img, 50, 2) + 16, 4);
  }

  lemma SectionsPoke(img: seq<Byte>, p: Patch, e: Elf)
    requires Fits(p, |img|) && e == Parse(img) && OffTables(e, p.at, |p.bytes|)
    ensures SectionsAt(Poke(img, p), e.shoff, |e.sections|, e.strings) == e.sections
  {
    hide Poke, Num, SectionAt, SegmentAt, IsSpeElf, SectionsAt, SegmentsAt, OffSection, Strings;
    forall i | 0 <= i < |e.sections|
      ensures SectionAt(Poke(img, p), e.shoff + SHDR * i, e.strings) == e.sections[i]
    {
      assert OffSection(e.sections[i], e.strings, p.at, |p.bytes|);
      SectionPoke(img, p, e.shoff + SHDR * i, e.strings);
    }
    assert SectionsAt(Poke(img, p), e.shoff, |e.sections|, e.strings) == e.sections;
  }

  // ---------- relocations ----------

  function Wrap(x: int, host64: bool): (r: nat)
    ensures r < 0x1_0000_0000_0000_0000
  {
    if host64 then x % 0x1_0000_0000_0000_0000 else x % 0x1_0000_0000
  }

  predicate Handled(r: Rela) { r.info == R_SPU_PPU32 || r.info == R_SPU_PPU64 }

  function Width(r: Rela): nat { if r.info == R_SPU_PPU32 then 4 else 8 }

  /** Where in the image r applies: its address, relative to the section t. */
  function Place(t: Section, r: Rela): int { t.offset - t.addr + r.offset }

  /** The host address of ._ea data, `start` being that of the image. */
  function Value(r: Rela, start: nat, host64: bool): (v: nat)
    ensures v < 0x1_0000_0000_0000_0000
  {
    if r.info == R_SPU_PPU32 then Wrap(start + r.addend, host64) % 0x1_0000_0000 else Wrap(start + r.addend, host64)
  }

  function RelaPatch(t: Section, r: Rela, start: nat, host64: bool): Patch
    requires Place(t, r) >= 0
  {
    Patch(Place(t, r), BE(Value(r, start, host64), Width(r)))
  }

  predicate RelaOk(e: Elf, size: nat, t: Section, r: Rela) {
    Handled(r) ==> Place(t, r) >= 0 && Place(t, r) + Width(r) <= size && OffTables(e, Place(t, r), Width(r))
  }

  predicate RelasOk(e: Elf, size: nat, t: Section, rs: seq<Rela>) {
    forall j :: 0 <= j < |rs| ==> RelaOk(e, size, t, rs[j])
  }

  function RelaPatches(e: Elf, size: nat, t: Section, rs: seq<Rela>, start: nat, host64: bool): (ps: seq<Patch>)
    requires RelasOk(e, size, t, rs)
    ensures AllFit(ps, size)
  {
    if |rs| == 0 then []
    else
      var r := rs[|rs| - 1];
      RelaPatches(e, size, t, rs[..|rs| - 1], start, host64) +
      (if Handled(r) then [RelaPatch(t, r, start, host64)] else [])
  }

  predicate SectionOk(e: Elf, size: nat, s: Section) {
    s.typ == SHT_RELA ==> s.info < |e.sections| && RelasOk(e, size, e.sections[s.info], s.relas)
  }

  predicate SectionsOk(e: Elf, size: nat) {
    && e.strndx < |e.sections|
    && forall i :: 0 <= i < |e.sections| ==> SectionOk(e, size, e.sections[i])
  }

  /** All relocations of the first n sections. */
  function ImagePatches(e: Elf, size: nat, n: nat, start: nat, host64: bool): (ps: seq<Patch>)
    requires SectionsOk(e, size) && n <= |e.sections|
    ensures AllFit(ps, size)
  {
    if n == 0 then []
    else
      var s := e.sections[n - 1];
      ImagePatches(e, size, n - 1, start, host64) +
      (if s.typ == SHT_RELA then RelaPatches(e, size, e.sections[s.info], s.relas, start, host64) else [])
  }

  lemma RelaPatchesStep(e: Elf, size: nat, t: Section, rs: seq<Rela>, n: nat, start: nat, host64: bool)
    requires RelasOk(e, size, t, rs) && n < |rs|
    ensures RelasOk(e, size, t, rs[..n]) && RelasOk(e, size, t, rs[..n + 1]) && RelaOk(e, size, t, rs[n])
    ensures RelaPatches(e, size, t, rs[..n + 1], start, host64) ==
      if Handled(rs[n]) then RelaPatches(e, size, t, rs[..n], start, host64) + [RelaPatch(t, rs[n], start, host64)]
      else RelaPatches(e, size, t, rs[..n], start, host64)
  {
    assert rs[..n + 1][..n] == rs[..n];
  }

  lemma ImagePatchesStep(e: Elf, size: nat, n: nat, start: nat, host64: bool)
    requires SectionsOk(e, size) && n < |e.sections|
    ensures SectionOk(e, size, e.sections[n])
    ensures ImagePatches(e, size, n + 1, start, host64) ==
      if e.sections[n].typ == SHT_RELA then
        ImagePatches(e, size, n, start, host64) +
        RelaPatches(e, size, e.sections[e.sections[n].info], e.sections[n].relas, start, host64)
      else ImagePatches(e, size, n, start, host64)
  {}

  lemma SectionShape(img: seq<Byte>, s: Section)
    requires s in Parse(img).sections && s.typ == SHT_RELA
    ensures |s.relas| == RelaCount(s.size)
    ensures forall i :: 0 <= i < |s.relas| ==> s.relas[i] == RelaAt(img, s.offset + RELA * i)
  {
    hide Num, IsToe, RelaAt;
  }

  lemma {:induction false} RelasKeepTables(img: seq<Byte>, e: Elf, t: Section, rs: seq<Rela>, start: nat, host64: bool)
    requires e == Parse(img) && e.strndx < |e.sections| && RelasOk(e, |img|, t, rs)
    ensures Parse(Apply(img, RelaPatches(e, |img|, t, rs, start, host64))) == e
  {
    hide Parse, Poke, OffTables, RelaPatches, RelasOk, RelaPatch;
    var ps := RelaPatches(e, |img|, t, rs, start, host64);
    if |rs| == 0 {
      NoPatches(e, |img|, t, start, host64);
      ApplyNone(img);
    } else {
      var n := |rs| - 1;
      RelaPatchesStep(e, |img|, t, rs, n, start, host64);
      assert rs[..n + 1] == rs;
      RelasKeepTables(img, e, t, rs[..n], start, host64);
      if Handled(rs[n]) {
        RelaKeepsTables(Apply(img, RelaPatches(e, |img|, t, rs[..n], start, host64)), e, t, rs[n], start, host64);
        ApplyOneMore(img, RelaPatches(e, |img|, t, rs[..n], start, host64), RelaPatch(t, rs[n], start, host64));
      }
    }
  }

  lemma NoPatches(e: Elf, size: nat, t: Section, start: nat, host64: bool)
    ensures RelasOk(e, size, t, []) && RelaPatches(e, size, t, [], start, host64) == []
  {}

  lemma RelaKeepsTables(img: seq<Byte>, e: Elf, t: Section, r: Rela, start: nat, host64: bool)
    requires e == Parse(img) && e.strndx < |e.sections| && RelaOk(e, |img|, t, r) && Handled(r)
    ensures Fits(RelaPatch(t, r, start, host64), |img|)
    ensures Parse(Poke(img, RelaPatch(t, r, start, host64))) == e
  {
    ParsePoke(img, RelaPatch(t, r, start, host64));
  }

  lemma {:induction false} PatchesKeepTables(img: seq<Byte>, e: Elf, n: nat, start: nat, host64: bool)
    requires e == Parse(img) && SectionsOk(e, |img|) && n <= |e.sections|
    ensures Parse(Apply(img, ImagePatches(e, |img|, n, start, host64))) == e
  {
    hide Parse, Apply, OffTables, RelasOk, RelaPatches;
    if n == 0 {
      assert Apply(img, []) == img by { ApplyNone(img); }
    } else {
      var s := e.sections[n - 1];
      var ps := ImagePatches(e, |img|, n - 1, start, host64);
      PatchesKeepTables(img, e, n - 1, start, host64);
      ImagePatchesStep(e, |img|, n - 1, start, host64);
      if s.typ == SHT_RELA {
        var t := e.sections[s.info];
        RelasKeepTables(Apply(img, ps), e, t, s.relas, start, host64);
        ApplyAppend(img, ps, RelaPatches(e, |img|, t, s.relas, start, host64));
      }
    }
  }

  lemma ApplyNone(m: seq<Byte>)
    ensures Apply(m, []) == m
  {}

  /** Writing what is there already changes nothing. */
  lemma PokeSame(m: seq<Byte>, at: nat, n: nat, v: nat)
    requires at + n <= |m| && Num(m, at, n) == v
    ensures Poke(m, Patch(at, BE(v, n))) == m
  {
    RoundTripBytes(m[at..at + n]);
    assert m == m[..at] + m[at..at + n] + m[at + n..];
  }

  /** memcpy of a patch */
  method Copy(m: array<Byte>, at: nat, bytes: seq<Byte>)
    requires at + |bytes| <= m.Length
    modifies m
    ensures m[..] == Poke(old(m[..]), Patch(at, bytes))
  {
    CopyIn(m, at, bytes);
  }

  method Store(image: array<Byte>, at: nat, n: nat, v: nat)
    requires at + n <= image.Length
    modifies image
    ensures image[..] == Poke(old(image[..]), Patch(at, BE(v, n)))
  {
    // a page stays clean if the word is there already
    if Num(image[..], at, n) != v {
      Copy(image, at, BE(v, n));
    } else {
      PokeSame(image[..], at, n, v);
    }
  }

  /** apply_relocations: rh holds the relocations of section t */
  method ApplyRelocations(image: array<Byte>, start: nat, host64: bool, rh: Section, t: Section, ghost e: Elf)
    requires e == Parse(image[..]) && e.strndx < |e.sections| && rh in e.sections && rh.typ == SHT_RELA
    requires RelasOk(e, image.Length, t, rh.relas)
    modifies image
    ensures Parse(image[..]) == e
    ensures image[..] == Apply(old(image[..]), RelaPatches(e, image.Length, t, rh.relas, start, host64))
  {
    hide Parse, Apply, Poke, OffTables, RelaAt, RelaPatch, RelaPatches, RelasOk, RelaCount;
    ghost var img := image[..];
    SectionShape(img, rh);
    var i: nat := 0;
    assert rh.relas[..0] == [];
    NoPatches(e, image.Length, t, start, host64);
    ApplyNone(img);
    CountLaw(rh.size);
    while RELA * i < rh.size
      invariant i <= |rh.relas| && RelasOk(e, image.Length, t, rh.relas[..i])
      invariant Parse(image[..]) == e
      invariant image[..] == Apply(img, RelaPatches(e, image.Length, t, rh.relas[..i], start, host64))
      decreases rh.size - RELA * i
    {
      SectionShape(image[..], rh);
      var r := RelaAt(image[..], rh.offset + RELA * i);
      RelaPatchesStep(e, image.Length, t, rh.relas, i, start, host64);
      if Handled(r) {
        RelaKeepsTables(image[..], e, t, r, start, host64);
        ApplyOneMore(img, RelaPatches(e, image.Length, t, rh.relas[..i], start, host64),
                     RelaPatch(t, r, start, host64));
        ApplyRelocation(image, start, host64, t, r);
      }
      i := i + 1;
    }
    assert rh.relas[..i] == rh.relas;
  }

  lemma CountLaw(size: nat)
    ensures forall i: nat :: i < RelaCount(size) <==> RELA * i < size
  {}

  /** Lines 221-236 */
  method ApplyRelocation(image: array<Byte>, start: nat, host64: bool, t: Section, r: Rela)
    requires Handled(r) && Place(t, r) >= 0 && Place(t, r) + Width(r) <= image.Length
    modifies image
    ensures image[..] == Poke(old(image[..]), RelaPatch(t, r, start, host64))
  {
    hide Poke, BE, Wrap, Num;
    var loc := t.offset - t.addr + r.offset;
    if r.info == R_SPU_PPU32 {
      var v := Wrap(start + r.addend, host64) % 0x1_0000_0000;
      Store(image, loc, 4, v);
    } else if r.info == R_SPU_PPU64 {
      var v := Wrap(start + r.addend, host64);
      Store(image, loc, 8, v);
    }
  }

  // ---------- the toe sections ----------

  datatype Toe = Toe(addr: nat, size: nat)

  /** One .toe section more, lines 282-287 */
  function MoreToe(t: Toe, s: Section): Toe {
    Toe(if t.addr == 0 || t.addr > s.addr then s.addr else t.addr, t.size + s.size)
  }

  function ToeOf(ss: seq<Section>): Toe {
    if |ss| == 0 then Toe(0, 0)
    else
      var t := ToeOf(ss[..|ss| - 1]);
      if ss[|ss| - 1].toe then MoreToe(t, ss[|ss| - 1]) else t
  }

  lemma ToeOneMore(ss: seq<Section>, n: nat)
    requires n < |ss|
    ensures ToeOf(ss[..n + 1]) == if ss[n].toe then MoreToe(ToeOf(ss[..n]), ss[n]) else ToeOf(ss[..n])
  {
    assert ss[..n + 1][..n] == ss[..n];
  }

  lemma {:induction false} NoToe(ss: seq<Section>)
    requires forall s :: s in ss ==> !s.toe
    ensures ToeOf(ss) == Toe(0, 0)
  {
    if |ss| > 0 { NoToe(ss[..|ss| - 1]); }
  }

  predicate IsLowest(ss: seq<Section>, addr: nat) {
    && (exists s :: s in ss && s.toe && s.addr == addr)
    && forall s :: s in ss && s.toe ==> addr <= s.addr
  }

  predicate ToeAtZero(ss: seq<Section>) { exists s :: s in ss && s.toe && s.addr == 0 }

  predicate HasToe(ss: seq<Section>) { exists s :: s in ss && s.toe }

  /** The address of the last .toe section in the order of the table. */
  function LastToeAddr(ss: seq<Section>): nat
    requires HasToe(ss)
  {
    var last := ss[|ss| - 1];
    if last.toe then last.addr
    else
      assert forall s :: s in ss ==> s in ss[..|ss| - 1] || s == last;
      LastToeAddr(ss[..|ss| - 1])
  }

  /** Zero stands for `not found yet`, so the lowest address is found exactly if no .toe
      section is at address 0 or the last one is. */
  lemma {:induction false} ToeIsLowestIff(ss: seq<Section>)
    requires HasToe(ss)
    ensures IsLowest(ss, ToeOf(ss).addr) <==> !ToeAtZero(ss) || LastToeAddr(ss) == 0
    ensures ToeOf(ss).addr == 0 <==> LastToeAddr(ss) == 0
    ensures exists s :: s in ss && s.toe && s.addr == ToeOf(ss).addr
  {
    var init, last := ss[..|ss| - 1], ss[|ss| - 1];
    assert ss == init + [last];
    if HasToe(init) {
      ToeIsLowestIff(init);
      var w :| w in init && w.toe && w.addr == ToeOf(init).addr;
      assert w in ss && last in ss;
    } else {
      NoToe(init);
      assert last in ss;
    }
    var w :| w in ss && w.toe && w.addr == ToeOf(ss).addr;
  }

  /** A .toe section at 0 followed by one at 16: the address found is 16. */
  lemma LowestToeMissed(a: Section, b: Section)
    requires a.toe && b.toe && a.addr == 0 && b.addr == 16
    ensures ToeOf([a, b]).addr == 16 && !IsLowest([a, b], ToeOf([a, b]).addr)
  {
    assert [a, b][..1] == [a] && [a][..0] == [];
    assert a in [a, b];
  }

  /** With one .toe section the shadow replaces exactly that section. */
  lemma {:induction false} OneToe(ss: seq<Section>, i: nat)
    requires i < |ss| && ss[i].toe && forall j :: 0 <= j < |ss| && j != i ==> !ss[j].toe
    ensures ToeOf(ss) == Toe(ss[i].addr, ss[i].size)
  {
    if i == |ss| - 1 {
      NoToe(ss[..i]);
    } else {
      OneToe(ss[..|ss| - 1], i);
    }
  }

  // ---------- segments ----------

  function Zeros(n: nat): (z: seq<Byte>)
    ensures |z| == n && forall k :: 0 <= k < n ==> z[k] == 0
  {
    seq(n, i => 0)
  }

  predicate SegmentOk(g: Segment, img: nat, toe: Toe, shadow: nat, buffer: nat) {
    g.typ == PT_LOAD ==>
      && g.offset + g.filesz <= img
      && g.vaddr + g.filesz <= buffer && g.vaddr + g.memsz <= buffer
      && (g.vaddr == toe.addr ==> toe.size <= shadow && g.vaddr + toe.size <= buffer)
  }

  /** copy_to_ld_buffer */
  function Copies(g: Segment, img: seq<Byte>, toe: Toe, shadow: seq<Byte>, buffer: nat): (ps: seq<Patch>)
    requires g.typ == PT_LOAD && SegmentOk(g, |img|, toe, |shadow|, buffer)
    ensures AllFit(ps, buffer)
  {
    var base := Patch(g.vaddr, img[g.offset..g.offset + g.filesz]);
    if g.vaddr == toe.addr then
      (if toe.size != g.filesz && g.filesz != 0 then [base] else []) + [Patch(g.vaddr, shadow[..toe.size])]
    else if g.filesz != 0 then [base]
    else []
  }

  /** What is left of a segment beyond its file image is zeroed. */
  function Tail(g: Segment): seq<Patch> {
    if g.filesz < g.memsz then [Patch(g.vaddr + g.filesz, Zeros(g.memsz - g.filesz))] else []
  }

  function SegmentPatches(g: Segment, img: seq<Byte>, toe: Toe, shadow: seq<Byte>, buffer: nat): (ps: seq<Patch>)
    requires SegmentOk(g, |img|, toe, |shadow|, buffer)
    ensures AllFit(ps, buffer)
  {
    if g.typ != PT_LOAD then []
    else Tail(g) + Copies(g, img, toe, shadow, buffer)
  }

  predicate SegmentsOk(gs: seq<Segment>, img: nat, toe: Toe, shadow: nat, buffer: nat) {
    forall i :: 0 <= i < |gs| ==> SegmentOk(gs[i], img, toe, shadow, buffer)
  }

  function LoadPatches(gs: seq<Segment>, img: seq<Byte>, toe: Toe, shadow: seq<Byte>, buffer: nat): (ps: seq<Patch>)
    requires SegmentsOk(gs, |img|, toe, |shadow|, buffer)
    ensures AllFit(ps, buffer)
  {
    if |gs| == 0 then []
    else
      LoadPatches(gs[..|gs| - 1], img, toe, shadow, buffer) +
      SegmentPatches(gs[|gs| - 1], img, toe, shadow, buffer)
  }

  // ---------- which byte ends up where ----------

  /** How far a segment reaches: file image, zeroed tail or the shadow of the toe. */
  function Extent(g: Segment, toe: Toe): nat {
    var n := if g.filesz < g.memsz then g.memsz else g.filesz;
    if g.vaddr == toe.addr && n < toe.size then toe.size else n
  }

  predicate Covers(g: Segment, toe: Toe, k: int) {
    g.typ == PT_LOAD && g.vaddr <= k < g.vaddr + Extent(g, toe)
  }

  /** The byte a segment has for address k: from the shadow, from the file, or zero. */
  function SegmentByte(g: Segment, img: seq<Byte>, toe: Toe, shadow: seq<Byte>, k: nat): Byte
    requires Covers(g, toe, k) && SegmentOk(g, |img|, toe, |shadow|, g.vaddr + Extent(g, toe))
  {
    var d := k - g.vaddr;
    if g.vaddr == toe.addr && d < toe.size then shadow[d]
    else if d < g.filesz then img[g.offset + d]
    else 0
  }

  /** The number of the last segment that covers k, counting from one; 0 for none. */
  function LastCover(gs: seq<Segment>, toe: Toe, k: int): (n: nat)
    ensures n <= |gs| && (n > 0 ==> Covers(gs[n - 1], toe, k))
    ensures forall i :: n <= i < |gs| ==> !Covers(gs[i], toe, k)
  {
    if |gs| == 0 then 0
    else if Covers(gs[|gs| - 1], toe, k) then |gs|
    else LastCover(gs[..|gs| - 1], toe, k)
  }

  lemma SegmentAtByte(g: Segment, img: seq<Byte>, toe: Toe, shadow: seq<Byte>, buffer: nat, k: nat, was: Byte)
    requires SegmentOk(g, |img|, toe, |shadow|, buffer)
    ensures Last(SegmentPatches(g, img, toe, shadow, buffer), k, was) ==
      if Covers(g, toe, k) then SegmentByte(g, img, toe, shadow, k) else was
  {
    hide Last;
    LastNone(k, was);
    if g.typ == PT_LOAD {
      LastAppend(Tail(g), Copies(g, img, toe, shadow, buffer), k, was);
      if g.filesz < g.memsz {
        LastOne([], Patch(g.vaddr + g.filesz, Zeros(g.memsz - g.filesz)), k, was);
      }
      CopiesByte(g, img, toe, shadow, buffer, k, Last(Tail(g), k, was));
    }
  }

  lemma LastNone(k: int, was: Byte)
    ensures Last([], k, was) == was
  {}

  lemma LastOne(ps: seq<Patch>, p: Patch, k: int, was: Byte)
    ensures Last(ps + [p], k, was) == if Hits(p, k) then p.bytes[k - p.at] else Last(ps, k, was)
    ensures [] + [p] == [p]
  {
    assert (ps + [p])[..|ps|] == ps;
  }

  lemma CopiesByte(g: Segment, img: seq<Byte>, toe: Toe, shadow: seq<Byte>, buffer: nat, k: nat, was: Byte)
    requires g.typ == PT_LOAD && SegmentOk(g, |img|, toe, |shadow|, buffer)
    ensures Last(Copies(g, img, toe, shadow, buffer), k, was) ==
      if g.vaddr == toe.addr && g.vaddr <= k < g.vaddr + toe.size then shadow[k - g.vaddr]
      else if g.vaddr <= k < g.vaddr + g.filesz then img[g.offset + (k - g.vaddr)]
      else was
  {
    hide Last, Hits;
    LastNone(k, was);
    var base := Patch(g.vaddr, img[g.offset..g.offset + g.filesz]);
    BaseByte(g, img, k, [], was);
    if g.vaddr == toe.addr {
      var over := Patch(g.vaddr, shadow[..toe.size]);
      ShadowByte(g.vaddr, shadow, toe.size, k, [], was);
      ShadowByte(g.vaddr, shadow, toe.size, k, [base], was);
      assert [] + [over] == [over];
    } else {
      assert [] + [base] == [base];
    }
  }

  lemma BaseByte(g: Segment, img: seq<Byte>, k: nat, ps: seq<Patch>, was: Byte)
    requires g.offset + g.filesz <= |img|
    ensures Last(ps + [Patch(g.vaddr, img[g.offset..g.offset + g.filesz])], k, was) ==
      if g.vaddr <= k < g.vaddr + g.filesz then img[g.offset + (k - g.vaddr)] else Last(ps, k, was)
    ensures ps == [] ==>
      ps + [Patch(g.vaddr, img[g.offset..g.offset + g.filesz])] == [Patch(g.vaddr, img[g.offset..g.offset + g.filesz])]
  {
    hide Last;
    LastOne(ps, Patch(g.vaddr, img[g.offset..g.offset + g.filesz]), k, was);
  }

  lemma ShadowByte(at: nat, shadow: seq<Byte>, n: nat, k: nat, ps: seq<Patch>, was: Byte)
    requires n <= |shadow|
    ensures Last(ps + [Patch(at, shadow[..n])], k, was) == if at <= k < at + n then shadow[k - at] else Last(ps, k, was)
  {
    hide Last;
    LastOne(ps, Patch(at, shadow[..n]), k, was);
  }

  /** The loader's writes, one after another, leave the byte of the last segment that covers
      the address, and leave alone what no segment covers. */
  lemma {:induction false} LastSegmentWins(gs: seq<Segment>, img: seq<Byte>, toe: Toe, shadow: seq<Byte>,
                                           buffer: seq<Byte>, k: nat)
    requires SegmentsOk(gs, |img|, toe, |shadow|, |buffer|) && k < |buffer|
    ensures Apply(buffer, LoadPatches(gs, img, toe, shadow, |buffer|))[k] ==
      var n := LastCover(gs, toe, k);
      if n == 0 then buffer[k] else SegmentByte(gs[n - 1], img, toe, shadow, k)
  {
    var ps := LoadPatches(gs, img, toe, shadow, |buffer|);
    ApplyAt(buffer, ps, k);
    if |gs| > 0 {
      var init, g := gs[..|gs| - 1], gs[|gs| - 1];
      var before := LoadPatches(init, img, toe, shadow, |buffer|);
      LastSegmentWins(init, img, toe, shadow, buffer, k);
      ApplyAt(buffer, before, k);
      LastAppend(before, SegmentPatches(g, img, toe, shadow, |buffer|), k, buffer[k]);
      SegmentAtByte(g, img, toe, shadow, |buffer|, k, Last(before, k, buffer[k]));
    }
  }

  // ---------- the loader ----------

  predicate HasLoad(gs: seq<Segment>) { exists g :: g in gs && g.typ == PT_LOAD }

  /** The image fits itself and local store, and its relocations stay off its tables. */
  predicate WellFormed(e: Elf, img: nat, shadow: nat, buffer: nat) {
    && SectionsOk(e, img)
    && SegmentsOk(e.segments, img, ToeOf(e.sections), shadow, buffer)
  }

  method ZeroFill(buffer: array<Byte>, at: nat, n: nat)
    requires at + n <= buffer.Length
    modifies buffer
    ensures buffer[..] == Poke(old(buffer[..]), Patch(at, Zeros(n)))
  {
    Copy(buffer, at, Zeros(n));
  }

  /** copy_to_ld_buffer, lines 181-196 */
  method CopyToLdBuffer(g: Segment, image: array<Byte>, toe: Toe, shadow: seq<Byte>, buffer: array<Byte>)
    requires image != buffer && g.typ == PT_LOAD && SegmentOk(g, image.Length, toe, |shadow|, buffer.Length)
    modifies buffer
    ensures buffer[..] == Apply(old(buffer[..]), Copies(g, image[..], toe, shadow, buffer.Length))
  {
    hide Apply, Poke;
    ghost var was := buffer[..];
    ghost var base := Patch(g.vaddr, image[g.offset..g.offset + g.filesz]);
    ApplyNone(was);
    ApplyOneMore(was, [], base);
    assert [] + [base] == [base];
    if g.vaddr == toe.addr {
      ghost var over := Patch(g.vaddr, shadow[..toe.size]);
      ApplyOneMore(was, [], over);
      ApplyOneMore(was, [base], over);
      assert [] + [over] == [over];
      // the shadow covers only part of such a segment
      if toe.size != g.filesz && g.filesz != 0 {
        Copy(buffer, g.vaddr, image[g.offset..g.offset + g.filesz]);
      }
      Copy(buffer, g.vaddr, shadow[..toe.size]);
    } else if g.filesz != 0 {
      Copy(buffer, g.vaddr, image[g.offset..g.offset + g.filesz]);
    }
  }

  /** The body of the loop over program headers, for a segment to load */
  method LoadSegment(g: Segment, image: array<Byte>, toe: Toe, shadow: seq<Byte>, buffer: array<Byte>)
    requires image != buffer && g.typ == PT_LOAD && SegmentOk(g, image.Length, toe, |shadow|, buffer.Length)
    modifies buffer
    ensures buffer[..] == Apply(old(buffer[..]), SegmentPatches(g, image[..], toe, shadow, buffer.Length))
  {
    hide Apply, Poke, Copies;
    ghost var was := buffer[..];
    ApplyNone(was);
    ApplyAppend(was, Tail(g), Copies(g, image[..], toe, shadow, buffer.Length));
    if g.filesz < g.memsz {
      ghost var tail := Patch(g.vaddr + g.filesz, Zeros(g.memsz - g.filesz));
      ApplyOneMore(was, [], tail);
      assert [] + [tail] == [tail];
      ZeroFill(buffer, g.vaddr + g.filesz, g.memsz - g.filesz);
    }
    CopyToLdBuffer(g, image, toe, shadow, buffer);
  }

  /** overlay: is ph inside the segment before it? */
  function Overlay(g: Segment, prev: Option<Segment>): bool {
    prev.Some? && prev.value.vaddr <= g.vaddr < prev.value.vaddr + prev.value.memsz
  }

  /** The loop over section headers: relocates the image and finds the toe. */
  method Relocate(image: array<Byte>, start: nat, host64: bool, ghost e: Elf) returns (toe: Toe)
    requires e == Parse(image[..]) && SectionsOk(e, image.Length)
    modifies image
    ensures Parse(image[..]) == e && toe == ToeOf(e.sections)
    ensures image[..] == Apply(old(image[..]), ImagePatches(e, image.Length, |e.sections|, start, host64))
  {
    hide Apply, Poke, OffTables, RelasOk, RelaPatches, IsSpeElf, Num, SectionAt, ToeOf, ImagePatches;
    ghost var img := image[..];
    var shoff, shnum, strings := Num(image[..], 32, 4), Num(image[..], 48, 2), Strings(image[..]);
    toe := Toe(0, 0);
    var i := 0;
    ApplyNone(img);
    NoImagePatches(e, image.Length, start, host64);
    assert e.sections[..0] == [];
    while i < shnum
      invariant i <= shnum == |e.sections| && shoff == e.shoff && strings == e.strings
      invariant Parse(image[..]) == e
      invariant image[..] == Apply(img, ImagePatches(e, image.Length, i, start, host64))
      invariant toe == ToeOf(e.sections[..i])
    {
      var sh := SectionAt(image[..], shoff + SHDR * i, strings);
      assert sh == e.sections[i];
      ImagePatchesStep(e, image.Length, i, start, host64);
      ToeOneMore(e.sections, i);
      if sh.typ == SHT_RELA {
        var t := SectionAt(image[..], shoff + SHDR * sh.info, strings);
        assert t == e.sections[sh.info];
        ApplyAppend(img, ImagePatches(e, image.Length, i, start, host64),
                    RelaPatches(e, image.Length, t, sh.relas, start, host64));
        ApplyRelocations(image, start, host64, sh, t, e);
      }
      if sh.toe { toe := MoreToe(toe, sh); }
      i := i + 1;
    }
    assert e.sections[..i] == e.sections;
  }

  lemma NoImagePatches(e: Elf, size: nat, start: nat, host64: bool)
    requires SectionsOk(e, size)
    ensures ImagePatches(e, size, 0, start, host64) == []
    ensures ToeOf([]) == Toe(0, 0)
  {}

  lemma LoadPatchesStep(gs: seq<Segment>, n: nat, img: seq<Byte>, toe: Toe, shadow: seq<Byte>, buffer: nat)
    requires n < |gs| && SegmentsOk(gs, |img|, toe, |shadow|, buffer)
    ensures SegmentsOk(gs[..n], |img|, toe, |shadow|, buffer) && SegmentsOk(gs[..n + 1], |img|, toe, |shadow|, buffer)
    ensures SegmentOk(gs[n], |img|, toe, |shadow|, buffer)
    ensures LoadPatches(gs[..n + 1], img, toe, shadow, buffer) ==
      LoadPatches(gs[..n], img, toe, shadow, buffer) + SegmentPatches(gs[n], img, toe, shadow, buffer)
  {
    assert gs[..n + 1][..n] == gs[..n];
  }

  lemma NoLoadPatches(img: seq<Byte>, toe: Toe, shadow: seq<Byte>, buffer: nat)
    ensures SegmentsOk([], |img|, toe, |shadow|, buffer)
    ensures LoadPatches([], img, toe, shadow, buffer) == []
  {}

  /** The loop over program headers. */
  method LoadSegments(image: array<Byte>, toe: Toe, shadow: seq<Byte>, buffer: array<Byte>, ghost e: Elf)
    returns (loaded: nat)
    requires image != buffer && e == Parse(image[..])
    requires SegmentsOk(e.segments, image.Length, toe, |shadow|, buffer.Length)
    modifies buffer
    ensures buffer[..] == Apply(old(buffer[..]), LoadPatches(e.segments, image[..], toe, shadow, buffer.Length))
    ensures loaded == 0 <==> !HasLoad(e.segments)
  {
    hide Apply, Poke, IsSpeElf, Num, SegmentAt, SectionsAt, SegmentPatches, SegmentsOk, SegmentOk, LoadPatches, Strings;
    ghost var was, img := buffer[..], image[..];
    var phoff, phnum := Num(image[..], 28, 4), Num(image[..], 44, 2);
    var i := 0;
    var prev: Option<Segment> := None;
    loaded := 0;
    ApplyNone(was);
    NoLoadPatches(img, toe, shadow, buffer.Length);
    assert e.segments[..0] == [];
    while i < phnum
      invariant i <= phnum == |e.segments| && phoff == e.phoff && prev == None && image[..] == img
      invariant SegmentsOk(e.segments[..i], image.Length, toe, |shadow|, buffer.Length)
      invariant buffer[..] == Apply(was, LoadPatches(e.segments[..i], img, toe, shadow, buffer.Length))
      invariant loaded == 0 <==> !HasLoad(e.segments[..i])
    {
      var ph := SegmentAt(image[..], phoff + PHDR * i);
      assert ph == e.segments[i] && e.segments[..i + 1] == e.segments[..i] + [ph];
      LoadPatchesStep(e.segments, i, img, toe, shadow, buffer.Length);
      if ph.typ == PT_LOAD {
        if !Overlay(ph, prev) {
          ApplyAppend(was, LoadPatches(e.segments[..i], img, toe, shadow, buffer.Length),
                      SegmentPatches(ph, img, toe, shadow, buffer.Length));
          LoadSegment(ph, image, toe, shadow, buffer);
          loaded := loaded + 1;
        }
      } else {
        SkipSegment(ph, img, toe, shadow, buffer.Length, LoadPatches(e.segments[..i], img, toe, shadow, buffer.Length));
      }
      i := i + 1;
    }
    assert e.segments[..i] == e.segments;
  }

  lemma SkipSegment(g: Segment, img: seq<Byte>, toe: Toe, shadow: seq<Byte>, buffer: nat, before: seq<Patch>)
    requires g.typ != PT_LOAD && SegmentOk(g, |img|, toe, |shadow|, buffer)
    ensures before + SegmentPatches(g, img, toe, shadow, buffer) == before
  {}

  /** _base_spe_load_spe_elf: the return code and, on success, the entry point. */
  method Load(image: array<Byte>, start: nat, host64: bool, shadow: seq<Byte>, buffer: array<Byte>)
    returns (rc: int, entry: nat)
    requires image != buffer
    requires IsSpeElf(image[..]) ==> WellFormed(Parse(image[..]), image.Length, |shadow|, buffer.Length)
    modifies image, buffer
    ensures rc == (if Parse(old(image[..])).valid && HasLoad(Parse(old(image[..])).segments) then 0 else -EINVAL)
    ensures rc == 0 ==> entry == Parse(old(image[..])).entry
    ensures Parse(image[..]) == Parse(old(image[..]))
    ensures if Parse(old(image[..])).valid
      then
        && image[..] == Relocated(old(image[..]), start, host64)
        && buffer[..] == Loaded(old(buffer[..]), image[..], shadow)
      else image[..] == old(image[..]) && buffer[..] == old(buffer[..])
  {
    hide Apply, Poke, SectionsOk, SegmentsOk, IsSpeElf, Num, SectionsAt, SegmentsAt, Strings, ToeOf, LoadPatches;
    hide ImagePatches;
    entry := 0;
    if !IsSpeElf(image[..]) { return -EINVAL, entry; }
    ghost var e := Parse(image[..]);
    var toe := Relocate(image, start, host64, e);
    var loaded := LoadSegments(image, toe, shadow, buffer, e);
    if loaded == 0 { return -EINVAL, entry; }
    entry := Num(image[..], 24, 4);
    rc := 0;
  }

  /** The image after its relocations. */
  function Relocated(img: seq<Byte>, start: nat, host64: bool): (r: seq<Byte>)
    requires SectionsOk(Parse(img), |img|)
    ensures |r| == |img|
  {
    Apply(img, ImagePatches(Parse(img), |img|, |Parse(img).sections|, start, host64))
  }

  /** Local store after the loop over the program headers of img. */
  function Loaded(buffer: seq<Byte>, img: seq<Byte>, shadow: seq<Byte>): (r: seq<Byte>)
    requires WellFormed(Parse(img), |img|, |shadow|, |buffer|)
    ensures |r| == |buffer|
  {
    Apply(buffer, LoadPatches(Parse(img).segments, img, ToeOf(Parse(img).sections), shadow, |buffer|))
  }

  // ---------- what a load means ----------

  /** Every byte of local store after a load. */
  lemma LoadedByte(buffer: seq<Byte>, img: seq<Byte>, shadow: seq<Byte>, k: nat)
    requires WellFormed(Parse(img), |img|, |shadow|, |buffer|) && k < |buffer|
    ensures
      var e := Parse(img);
      var toe := ToeOf(e.sections);
      var n := LastCover(e.segments, toe, k);
      Loaded(buffer, img, shadow)[k] ==
        if n == 0 then buffer[k] else SegmentByte(e.segments[n - 1], img, toe, shadow, k)
  {
    hide Parse, ToeOf, SegmentOk;
    var e := Parse(img);
    LastSegmentWins(e.segments, img, ToeOf(e.sections), shadow, buffer, k);
  }

  /** Without a .toe section the load is the plain one, for a segment at address 0 too. */
  lemma PlainLoad(buffer: seq<Byte>, img: seq<Byte>, shadow: seq<Byte>, k: nat)
    requires WellFormed(Parse(img), |img|, |shadow|, |buffer|) && k < |buffer|
    requires forall s :: s in Parse(img).sections ==> !s.toe
    ensures
      var gs := Parse(img).segments;
      var n := LastCover(gs, Toe(0, 0), k);
      && (n > 0 ==> PlainCovers(gs[n - 1], k))
      && (forall i :: n <= i < |gs| ==> !PlainCovers(gs[i], k))
      && Loaded(buffer, img, shadow)[k] == (if n == 0 then buffer[k] else PlainByte(gs[n - 1], img, k))
  {
    hide Parse, ToeOf, Loaded;
    var e := Parse(img);
    NoToe(e.sections);
    LoadedByte(buffer, img, shadow, k);
    var n := LastCover(e.segments, Toe(0, 0), k);
    if n > 0 { PlainSegment(e.segments[n - 1], img, shadow, k); }
    forall i | n <= i < |e.segments| ensures !PlainCovers(e.segments[i], k) {
      assert !Covers(e.segments[i], Toe(0, 0), k);
    }
  }

  predicate PlainCovers(g: Segment, k: int) {
    g.typ == PT_LOAD && g.vaddr <= k && (k < g.vaddr + g.filesz || k < g.vaddr + g.memsz)
  }

  function PlainByte(g: Segment, img: seq<Byte>, k: int): Byte {
    if g.vaddr <= k < g.vaddr + g.filesz && g.offset + (k - g.vaddr) < |img| then img[g.offset + (k - g.vaddr)] else 0
  }

  lemma PlainSegment(g: Segment, img: seq<Byte>, shadow: seq<Byte>, k: nat)
    requires Covers(g, Toe(0, 0), k) && SegmentOk(g, |img|, Toe(0, 0), |shadow|, g.vaddr + Extent(g, Toe(0, 0)))
    ensures PlainCovers(g, k) && SegmentByte(g, img, Toe(0, 0), shadow, k) == PlainByte(g, img, k)
  {}

  /** The tables survive the relocations, which change nothing the second time; so a second
      load, wherever it goes, puts the same bytes in the same places. */
  lemma ReloadIsSame(img: seq<Byte>, start: nat, host64: bool, shadow: seq<Byte>, a: seq<Byte>, b: seq<Byte>, k: nat)
    requires WellFormed(Parse(img), |img|, |shadow|, |a|) && |a| == |b| && k < |a|
    ensures
      var once := Relocated(img, start, host64);
      && Parse(once) == Parse(img)
      && Relocated(once, start, host64) == once
      && (LastCover(Parse(img).segments, ToeOf(Parse(img).sections), k) > 0 ==>
          Loaded(a, once, shadow)[k] == Loaded(b, Relocated(once, start, host64), shadow)[k])
  {
    hide Parse, Apply, SegmentsOk, SegmentOk, ToeOf, SectionsOk, ImagePatches, LoadPatches;
    var e := Parse(img);
    var ps := ImagePatches(e, |img|, |e.sections|, start, host64);
    PatchesKeepTables(img, e, |e.sections|, start, host64);
    PatchTwice(img, ps);
    var once := Relocated(img, start, host64);
    LoadedByte(a, once, shadow, k);
    LoadedByte(b, once, shadow, k);
  }

  lemma LastOfMiddle(a: seq<Patch>, p: Patch, b: seq<Patch>, k: int, was: Byte)
    requires Hits(p, k) && forall q :: q in b ==> !Hits(q, k)
    ensures Last(a + [p] + b, k, was) == p.bytes[k - p.at]
  {
    LastAppend(a + [p], b, k, was);
    LastOne(a, p, k, was);
    Missed(b, k, Last(a + [p], k, was));
  }

  lemma {:induction false} Missed(ps: seq<Patch>, k: int, was: Byte)
    requires forall q :: q in ps ==> !Hits(q, k)
    ensures Last(ps, k, was) == was
  {
    if |ps| > 0 { Missed(ps[..|ps| - 1], k, was); }
  }

  /** A relocation is a virtual address: byte j of its value is found there in local store,
      once the segment that its section t belongs to has been loaded.  `a` and `b` are the
      relocations before and after; nothing in b goes to the same byte. */
  lemma RelocatedByte(img: seq<Byte>, start: nat, host64: bool, shadow: seq<Byte>, buffer: seq<Byte>,
                      t: Section, r: Rela, a: seq<Patch>, b: seq<Patch>, j: nat)
    requires WellFormed(Parse(img), |img|, |shadow|, |buffer|)
    requires Place(t, r) >= 0 && j < Width(r) && r.offset + j < |buffer|
    requires ImagePatches(Parse(img), |img|, |Parse(img).sections|, start, host64) ==
      a + [RelaPatch(t, r, start, host64)] + b
    requires forall q :: q in b ==> !Hits(q, Place(t, r) + j)
    requires var e := Parse(img);
      var n := LastCover(e.segments, ToeOf(e.sections), r.offset + j);
      n > 0 && HoldsFile(e.segments[n - 1], t, ToeOf(e.sections), r.offset + j)
    ensures Parse(Relocated(img, start, host64)) == Parse(img)
    ensures Loaded(buffer, Relocated(img, start, host64), shadow)[r.offset + j] ==
      BE(Value(r, start, host64), Width(r))[j]
  {
    hide Parse, ImagePatches, SectionsOk, ToeOf, BE, Value, Relocated, Loaded, SegmentsOk, SegmentOk, RelaPatch;
    var e := Parse(img);
    var k := r.offset + j;
    RelocatedTables(img, start, host64);
    ByteOfImage(img, start, host64, t, r, a, b, j);
    LoadedByte(buffer, Relocated(img, start, host64), shadow, k);
    var g := e.segments[LastCover(e.segments, ToeOf(e.sections), k) - 1];
    assert g.offset + (k - g.vaddr) == Place(t, r) + j;
  }

  lemma RelocatedTables(img: seq<Byte>, start: nat, host64: bool)
    requires SectionsOk(Parse(img), |img|)
    ensures Parse(Relocated(img, start, host64)) == Parse(img)
  {
    hide Parse, ImagePatches, Apply;
    PatchesKeepTables(img, Parse(img), |Parse(img).sections|, start, host64);
  }

  lemma ByteOfImage(img: seq<Byte>, start: nat, host64: bool, t: Section, r: Rela, a: seq<Patch>, b: seq<Patch>, j: nat)
    requires SectionsOk(Parse(img), |img|) && Place(t, r) >= 0 && j < Width(r)
    requires ImagePatches(Parse(img), |img|, |Parse(img).sections|, start, host64) ==
      a + [RelaPatch(t, r, start, host64)] + b
    requires forall q :: q in b ==> !Hits(q, Place(t, r) + j)
    ensures Place(t, r) + j < |img|
    ensures Relocated(img, start, host64)[Place(t, r) + j] == BE(Value(r, start, host64), Width(r))[j]
  {
    hide Parse, ImagePatches, SectionsOk, BE, Value, Apply, Last;
    var ps := ImagePatches(Parse(img), |img|, |Parse(img).sections|, start, host64);
    assert Fits(ps[|a|], |img|) && ps[|a|] == RelaPatch(t, r, start, host64);
    ApplyAt(img, ps, Place(t, r) + j);
    LastOfMiddle(a, RelaPatch(t, r, start, host64), b, Place(t, r) + j, img[Place(t, r) + j]);
  }

  /** The segment has the contents of section t at k, straight from the file. */
  predicate HoldsFile(g: Segment, t: Section, toe: Toe, k: nat) {
    && g.vaddr <= k < g.vaddr + g.filesz && g.offset - g.vaddr == t.offset - t.addr
    && !(g.vaddr == toe.addr && k < g.vaddr + toe.size)
  }

  // ---------- the layout of an image ----------

  type Half = x: int | 0 <= x < 0x1_0000

  /** The tables of the System V ABI, in the order of their fields: chapter 4, "ELF Header",
      "Sections" and "Relocation", and chapter 5, "Program Header". */
  datatype FileHeader = FileHeader(
    typ: Half, machine: Half, version: Word, entry: Word, phoff: Word, shoff: Word, flags: Word,
    ehsize: Half, phentsize: Half, phnum: Half, shentsize: Half, shnum: Half, shstrndx: Half)
  datatype ProgramHeader = ProgramHeader(
    typ: Word, offset: Word, vaddr: Word, paddr: Word, filesz: Word, memsz: Word, flags: Word, align: Word)
  datatype SectionHeader = SectionHeader(
    name: Word, typ: Word, flags: Word, addr: Word, offset: Word, size: Word, link: Word, info: Word,
    addralign: Word, entsize: Word)
  datatype RelaEntry = RelaEntry(offset: Word, info: Word, addend: Word)

  function HalfBytes(h: Half): (r: seq<Byte>)
    ensures |r| == 2
  {
    BE(h, 2)
  }

  /** Behind the identification: two halfwords, five words and six halfwords. */
  function FileHeaderBytes(h: FileHeader): (r: seq<Byte>)
    ensures |r| == 36
  {
    HalfBytes(h.typ) + HalfBytes(h.machine) + Words([h.version, h.entry, h.phoff, h.shoff, h.flags]) +
    HalfBytes(h.ehsize) + HalfBytes(h.phentsize) + HalfBytes(h.phnum) + HalfBytes(h.shentsize) +
    HalfBytes(h.shnum) + HalfBytes(h.shstrndx)
  }

  function ProgramHeaderBytes(h: ProgramHeader): (r: seq<Byte>)
    ensures |r| == 32
  {
    Words([h.typ, h.offset, h.vaddr, h.paddr, h.filesz, h.memsz, h.flags, h.align])
  }

  function SectionHeaderBytes(h: SectionHeader): (r: seq<Byte>)
    ensures |r| == 40
  {
    Words([h.name, h.typ, h.flags, h.addr, h.offset, h.size, h.link, h.info, h.addralign, h.entsize])
  }

  function RelaBytes(r: RelaEntry): (b: seq<Byte>)
    ensures |b| == 12
  {
    Words([r.offset, r.info, r.addend])
  }

  /** These bytes are in the image at this place. */
  ghost predicate Holds(img: seq<Byte>, at: nat, bytes: seq<Byte>) {
    at + |bytes| <= |img| && img[at..at + |bytes|] == bytes
  }

  lemma HoldsPart(img: seq<Byte>, at: nat, bytes: seq<Byte>, i: nat, part: seq<Byte>)
    requires Holds(img, at, bytes) && i + |part| <= |bytes| && bytes[i..i + |part|] == part
    ensures Holds(img, at + i, part)
  {
    forall j | 0 <= j < |part| ensures img[at + i + j] == part[j] {
      assert img[at..at + |bytes|][i + j] == bytes[i + j] == bytes[i..i + |part|][j];
    }
  }

  /** Word i of some words that stand in the image. */
  lemma NumOfWord(img: seq<Byte>, at: nat, ws: seq<Word>, i: nat)
    requires Holds(img, at, Words(ws)) && i < |ws|
    ensures Num(img, at + 4 * i, 4) == ws[i]
  {
    hide Words, FromBE, Num, Holds;
    WordRead(ws, i);
    NumOfPart(img, at, Words(ws), 4 * i);
  }

  lemma NumOfPart(img: seq<Byte>, at: nat, bytes: seq<Byte>, o: nat)
    requires Holds(img, at, bytes) && o + 4 <= |bytes|
    ensures Num(img, at + o, 4) == FromBE(bytes[o..o + 4])
  {
    hide FromBE;
    HoldsPart(img, at, bytes, o, bytes[o..o + 4]);
  }

  lemma NumOfHalf(img: seq<Byte>, at: nat, h: Half)
    requires Holds(img, at, HalfBytes(h))
    ensures Num(img, at, 2) == h
  {
    assert Pow256(0) == 1 && Pow256(1) == 256 && Pow256(2) == 0x1_0000;
    RoundTrip(h, 2);
  }

  lemma SegmentRead(img: seq<Byte>, at: nat, h: ProgramHeader)
    requires Holds(img, at, ProgramHeaderBytes(h))
    ensures SegmentAt(img, at) == Segment(h.typ, h.offset, h.vaddr, h.filesz, h.memsz)
  {
    hide Num, Words, Holds;
    var ws := [h.typ, h.offset, h.vaddr, h.paddr, h.filesz, h.memsz, h.flags, h.align];
    NumOfWord(img, at, ws, 0);
    NumOfWord(img, at, ws, 1);
    NumOfWord(img, at, ws, 2);
    NumOfWord(img, at, ws, 4);
    NumOfWord(img, at, ws, 5);
  }

  /** An addend is a number in two's complement. */
  lemma RelaRead(img: seq<Byte>, at: nat, r: RelaEntry)
    requires Holds(img, at, RelaBytes(r))
    ensures RelaAt(img, at) ==
      Rela(r.offset, r.info, if r.addend >= 0x8000_0000 then r.addend - 0x1_0000_0000 else r.addend)
  {
    hide Num, Words, Holds;
    var ws := [r.offset, r.info, r.addend];
    NumOfWord(img, at, ws, 0);
    NumOfWord(img, at, ws, 1);
    NumOfWord(img, at, ws, 2);
  }

  /** The section's name is .toe if these five bytes are where it begins. */
  lemma SectionRead(img: seq<Byte>, at: nat, strings: nat, h: SectionHeader)
    requires Holds(img, at, SectionHeaderBytes(h))
    ensures var s := SectionAt(img, at, strings);
      && s.name == h.name && s.typ == h.typ && s.addr == h.addr && s.offset == h.offset && s.size == h.size
      && s.info == h.info && (s.toe <==> Holds(img, strings + h.name, [0x2E, 0x74, 0x6F, 0x65, 0]))
      && |s.relas| == (if h.typ == 4 then RelaCount(h.size) else 0)
      && forall i :: 0 <= i < |s.relas| ==> s.relas[i] == RelaAt(img, h.offset + 12 * i)
  {
    hide Num, Words, RelaAt, RelaCount;
    var ws := [h.name, h.typ, h.flags, h.addr, h.offset, h.size, h.link, h.info, h.addralign, h.entsize];
    NumOfWord(img, at, ws, 0);
    NumOfWord(img, at, ws, 1);
    NumOfWord(img, at, ws, 3);
    NumOfWord(img, at, ws, 4);
    NumOfWord(img, at, ws, 5);
    NumOfWord(img, at, ws, 7);
  }

  /** ELF, 32 bits, big-endian, version 1. */
  const IDENT: seq<Byte> := [0x7F, 0x45, 0x4C, 0x46, 1, 2, 1, 0, 0]

  /** An image with these tables. */
  ghost predicate HasTables(img: seq<Byte>, h: FileHeader, ps: seq<ProgramHeader>, ss: seq<SectionHeader>) {
    && Holds(img, 0, IDENT) && Holds(img, 16, FileHeaderBytes(h))
    && |ps| == h.phnum && (forall i :: 0 <= i < |ps| ==> Holds(img, h.phoff + 32 * i, ProgramHeaderBytes(ps[i])))
    && |ss| == h.shnum && (forall i :: 0 <= i < |ss| ==> Holds(img, h.shoff + 40 * i, SectionHeaderBytes(ss[i])))
    && h.shstrndx < |ss|
  }

  lemma HeaderRead(img: seq<Byte>, h: FileHeader)
    requires Holds(img, 16, FileHeaderBytes(h))
    ensures Num(img, 16, 2) == h.typ && Num(img, 18, 2) == h.machine
    ensures Num(img, 24, 4) == h.entry && Num(img, 28, 4) == h.phoff && Num(img, 32, 4) == h.shoff
    ensures Num(img, 44, 2) == h.phnum && Num(img, 48, 2) == h.shnum && Num(img, 50, 2) == h.shstrndx
  {
    hide Num, Words, Holds, HalfBytes;
    var ws := [h.version, h.entry, h.phoff, h.shoff, h.flags];
    var b := FileHeaderBytes(h);
    HoldsPart(img, 16, b, 0, HalfBytes(h.typ));
    HoldsPart(img, 16, b, 2, HalfBytes(h.machine));
    HoldsPart(img, 16, b, 4, Words(ws));
    HoldsPart(img, 16, b, 28, HalfBytes(h.phnum));
    HoldsPart(img, 16, b, 32, HalfBytes(h.shnum));
    HoldsPart(img, 16, b, 34, HalfBytes(h.shstrndx));
    NumOfHalf(img, 16, h.typ);
    NumOfHalf(img, 18, h.machine);
    NumOfWord(img, 20, ws, 1);
    NumOfWord(img, 20, ws, 2);
    NumOfWord(img, 20, ws, 3);
    NumOfHalf(img, 44, h.phnum);
    NumOfHalf(img, 48, h.shnum);
    NumOfHalf(img, 50, h.shstrndx);
  }

  /** What is read from an image is what its tables say: it is loaded if it is an executable
      for an SPU, machine 23 and type 2, and the names are in the section shstrndx. */
  lemma TablesRead(img: seq<Byte>, h: FileHeader, ps: seq<ProgramHeader>, ss: seq<SectionHeader>)
    requires HasTables(img, h, ps, ss)
    ensures var e := Parse(img);
      && (e.valid <==> h.machine == 23 && h.typ == 2)
      && e.entry == h.entry && |e.segments| == |ps| && |e.sections| == |ss|
      && (forall i :: 0 <= i < |ps| ==>
           e.segments[i] == Segment(ps[i].typ, ps[i].offset, ps[i].vaddr, ps[i].filesz, ps[i].memsz))
      && (forall i :: 0 <= i < |ss| ==> SectionIs(img, e.sections[i], ss[i], ss[h.shstrndx].offset))
  {
    hide Num, Holds, SectionAt, SegmentAt, SectionHeaderBytes, ProgramHeaderBytes, FileHeaderBytes, Strings, SectionIs;
    var e := Parse(img);
    HeaderRead(img, h);
    IdentRead(img);
    NamesRead(img, h, ss[h.shstrndx]);
    forall i | 0 <= i < |ps|
      ensures e.segments[i] == Segment(ps[i].typ, ps[i].offset, ps[i].vaddr, ps[i].filesz, ps[i].memsz)
    {
      SegmentRead(img, h.phoff + 32 * i, ps[i]);
    }
    forall i | 0 <= i < |ss| ensures SectionIs(img, e.sections[i], ss[i], ss[h.shstrndx].offset) {
      SectionIsRead(img, h.shoff + 40 * i, ss[h.shstrndx].offset, ss[i]);
    }
  }

  /** A section with its name, from the table of names, and with its relocations. */
  ghost predicate SectionIs(img: seq<Byte>, s: Section, h: SectionHeader, strings: nat) {
    && s.name == h.name && s.typ == h.typ && s.addr == h.addr && s.offset == h.offset && s.size == h.size
    && s.info == h.info && (s.toe <==> Holds(img, strings + h.name, [0x2E, 0x74, 0x6F, 0x65, 0]))
    && (forall i, r :: 0 <= i && h.typ == 4 && 12 * i < h.size && Holds(img, h.offset + 12 * i, RelaBytes(r)) ==>
         i < |s.relas| && s.relas[i] ==
           Rela(r.offset, r.info, if r.addend >= 0x8000_0000 then r.addend - 0x1_0000_0000 else r.addend))
  }

  lemma SectionIsRead(img: seq<Byte>, at: nat, strings: nat, h: SectionHeader)
    requires Holds(img, at, SectionHeaderBytes(h))
    ensures SectionIs(img, SectionAt(img, at, strings), h, strings)
  {
    hide Num, Holds, SectionAt, RelaAt, RelaBytes, RelaCount, SectionHeaderBytes;
    SectionRead(img, at, strings, h);
    CountLaw(h.size);
    var s := SectionAt(img, at, strings);
    forall i: nat, r | h.typ == 4 && 12 * i < h.size && Holds(img, h.offset + 12 * i, RelaBytes(r))
      ensures i < |s.relas| && s.relas[i] ==
        Rela(r.offset, r.info, if r.addend >= 0x8000_0000 then r.addend - 0x1_0000_0000 else r.addend)
    {
      RelaRead(img, h.offset + 12 * i, r);
    }
  }

  lemma IdentRead(img: seq<Byte>)
    requires Holds(img, 0, IDENT)
    ensures IsSpeElf(img) <==> Num(img, 18, 2) == 23 && Num(img, 16, 2) == 2
  {
    hide Num;
  }

  lemma NamesRead(img: seq<Byte>, h: FileHeader, names: SectionHeader)
    requires Num(img, 32, 4) == h.shoff && Num(img, 50, 2) == h.shstrndx
    requires Holds(img, h.shoff + 40 * h.shstrndx, SectionHeaderBytes(names))
    ensures Strings(img) == names.offset
  {
    hide Num, Words, Holds;
    var ws := [names.name, names.typ, names.flags, names.addr, names.offset, names.size, names.link, names.info,
               names.addralign, names.entsize];
    NumOfWord(img, h.shoff + 40 * h.shstrndx, ws, 4);
  }

  /** An image without a .toe section: at p_vaddr + d the loader puts byte p_offset + d of
      the image for each byte of the file, and zero behind them, unless a later segment to
      be loaded covers the address.  `was` is the image before its relocations, which keep
      what its tables say. */
  lemma HeaderByte(buffer: seq<Byte>, was: seq<Byte>, img: seq<Byte>, shadow: seq<Byte>,
                   h: FileHeader, ps: seq<ProgramHeader>, ss: seq<SectionHeader>, i: nat, d: nat)
    requires HasTables(was, h, ps, ss) && Parse(img) == Parse(was)
    requires WellFormed(Parse(img), |img|, |shadow|, |buffer|)
    requires forall j :: 0 <= j < |ss| ==> !Holds(was, ss[h.shstrndx].offset + ss[j].name, [0x2E, 0x74, 0x6F, 0x65, 0])
    requires i < |ps| && ps[i].typ == 1 && (d < ps[i].filesz || d < ps[i].memsz)
    requires forall j :: i < j < |ps| && ps[j].typ == 1 ==>
      || ps[i].vaddr + d < ps[j].vaddr
      || (ps[i].vaddr + d >= ps[j].vaddr + ps[j].filesz && ps[i].vaddr + d >= ps[j].vaddr + ps[j].memsz)
    ensures ps[i].vaddr + d < |buffer| && (d < ps[i].filesz ==> ps[i].offset + d < |img|)
    ensures Loaded(buffer, img, shadow)[ps[i].vaddr + d] == if d < ps[i].filesz then img[ps[i].offset + d] else 0
  {
    hide Parse, HasTables, Holds, Loaded, SectionsOk, SectionIs;
    var e, k := Parse(img), ps[i].vaddr + d;
    TablesRead(was, h, ps, ss);
    NoneIsToe(was, h, ps, ss);
    NoToe(e.sections);
    assert SegmentOk(e.segments[i], |img|, ToeOf(e.sections), |shadow|, |buffer|);
    PlainLoad(buffer, img, shadow, k);
    forall j | i < j < |ps| ensures !PlainCovers(e.segments[j], k) {}
    assert PlainCovers(e.segments[i], k);
    assert LastCover(e.segments, Toe(0, 0), k) == i + 1;
  }

  lemma NoneIsToe(img: seq<Byte>, h: FileHeader, ps: seq<ProgramHeader>, ss: seq<SectionHeader>)
    requires HasTables(img, h, ps, ss)
    requires forall j :: 0 <= j < |ss| ==> !Holds(img, ss[h.shstrndx].offset + ss[j].name, [0x2E, 0x74, 0x6F, 0x65, 0])
    ensures forall s :: s in Parse(img).sections ==> !s.toe
  {
    hide Parse, Holds;
    TablesRead(img, h, ps, ss);
    var e := Parse(img);
    forall j | 0 <= j < |e.sections| ensures !e.sections[j].toe {
      assert SectionIs(img, e.sections[j], ss[j], ss[h.shstrndx].offset);
    }
  }

  // ---------- the value of a relocation ----------

  /** R_SPU_PPU32, number 15, stores 4 bytes and R_SPU_PPU64, number 16, stores 8: the address
      of the image plus the addend, as wide as the host's addresses; other relocations are
      left alone. */
  lemma ValueIs(r: Rela, start: nat, host64: bool)
    ensures Handled(r) <==> r.info == 15 || r.info == 16
    ensures r.info == 15 ==> Width(r) == 4
    ensures r.info == 16 ==> Width(r) == 8
    ensures r.info == 15 || (r.info == 16 && !host64) ==>
      Value(r, start, host64) < 0x1_0000_0000 && (start + r.addend - Value(r, start, host64)) % 0x1_0000_0000 == 0
    ensures r.info == 16 && host64 ==>
      (start + r.addend - Value(r, start, host64)) % 0x1_0000_0000_0000_0000 == 0
  {
    var x := start + r.addend;
    var y := Wrap(x, host64);
    assert host64 ==> x == 0x1_0000_0000_0000_0000 * (x / 0x1_0000_0000_0000_0000) + y;
    assert !host64 ==> x == 0x1_0000_0000 * (x / 0x1_0000_0000) + y;
    assert y == 0x1_0000_0000 * (y / 0x1_0000_0000) + y % 0x1_0000_0000;
    Turns32(x / 0x1_0000_0000_0000_0000 * 0x1_0000_0000 + y / 0x1_0000_0000);
    Turns32(x / 0x1_0000_0000 + y / 0x1_0000_0000);
    Turns32(x / 0x1_0000_0000);
    Turns64(x / 0x1_0000_0000_0000_0000);
  }

  lemma Turns32(q: int)
    ensures (0x1_0000_0000 * q) % 0x1_0000_0000 == 0
  {}

  lemma Turns64(q: int)
    ensures (0x1_0000_0000_0000_0000 * q) % 0x1_0000_0000_0000_0000 == 0
  {}

  /** The shadow is as large as all .toe sections together. */
  lemma {:induction false} ToeSizeIs(ss: seq<Section>)
    ensures ToeOf(ss).size == ToeBytes(ss)
  {
    if |ss| > 0 { ToeSizeIs(ss[..|ss| - 1]); }
  }

  function ToeBytes(ss: seq<Section>): nat {
    if |ss| == 0 then 0 else ToeBytes(ss[..|ss| - 1]) + if ss[|ss| - 1].toe then ss[|ss| - 1].size else 0
  }
}
