/** Handing the initial registers to an SPE program (spebase/regs.c and lines 104-147 of
    spebase/run.c).

    The PPE cannot write SPE registers.  It copies a block of register values and eight
    instructions to the top of local store and starts the SPE there.  The instructions
    are executed here by an interpreter of the four instructions they consist of. */
module Registers {
  import opened Bytes
  import opened Common

  /** The local store limit register: addresses wrap at the size of local store. */
  const LSLR_SIZE := LS_SIZE

  /** A 128-bit register as four words, the preferred slot first. */
  type Quad = q: seq<Word> | |q| == 4 witness [0, 0, 0, 0]

  datatype RegState = RegState(r3: Quad, r4: Quad, r5: Quad, r6: Quad, entry: Quad) {
    function Block(): (ws: seq<Word>)
      ensures |ws| == 20
    {
      r3 + r4 + r5 + r6 + entry
    }
  }

  /** The words of reg_setup_trampoline after the space for the register block. */
  const CODE: seq<Word> := [
    0x33fff603,  // lqr  r3, block
    0x33fff784,  // lqr  r4, block + 16
    0x33fff905,  // lqr  r5, block + 32
    0x00200000,  // lnop
    0x33fffa06,  // lqr  r6, block + 48
    0x33fffb81,  // lqr  r1, block + 64
    0x40800002,  // il   r2, 0
    0x35200081,  // bisl r1, r1
    0, 0, 0, 0]  // back chain

  const TRAMPOLINE: seq<Word> := seq(20, i => 0) + CODE
  const BASE := LS_SIZE - 128

  /** _base_spe_setup_registers: two copies, the second over the head of the first. */
  method SetupRegisters(ls: array<Byte>, regs: RegState) returns (rc: int, entry: Word)
    requires ls.Length == LS_SIZE
    modifies ls
    ensures rc == 0 && entry == BASE + 80
    ensures ls[..] == Installed(old(ls[..]), regs.Block(), CODE)
  {
    CopyIn(ls, BASE, Words(TRAMPOLINE));
    CopyIn(ls, BASE, Words(regs.Block()));
    rc, entry := 0, BASE + 80;
    Overlaid(old(ls[..]), regs.Block(), CODE);
  }

  /** Local store once the trampoline is in place. */
  function Installed(ls: seq<Byte>, block: seq<Word>, code: seq<Word>): (r: seq<Byte>)
    requires |ls| == LS_SIZE && |block| == 20 && |code| == 12
    ensures |r| == LS_SIZE
  {
    ls[..BASE] + Words(block + code)
  }

  lemma Overlaid(ls: seq<Byte>, block: seq<Word>, code: seq<Word>)
    requires |ls| == LS_SIZE && |block| == 20 && |code| == 12
    ensures var t := Words(seq(20, i => 0) + code);
            var first := ls[..BASE] + t + ls[BASE + 128..];
            first[..BASE] + Words(block) + first[BASE + 80..] == Installed(ls, block, code)
  {
    WordsAppend(seq(20, i => 0), code);
    WordsAppend(block, code);
  }

  // ---------- the SPU ----------

  datatype Spu = Spu(pc: nat, regs: seq<Quad>, ls: seq<Byte>)

  predicate Valid(m: Spu) {
    |m.regs| == 128 && |m.ls| == LS_SIZE && m.pc < LS_SIZE && m.pc % 4 == 0
  }

  function Fetch(ls: seq<Byte>, a: nat): (w: Word)
    requires a + 4 <= |ls|
  {
    FromBEBound(ls[a..a + 4]);
    assert Pow256(4) == 256 * Pow256(3) == 0x1_0000 * Pow256(2) == 0x100_0000 * Pow256(1) == 0x1_0000_0000 * Pow256(0);
    FromBE(ls[a..a + 4])
  }

  function Load(ls: seq<Byte>, a: nat): Quad
    requires a + 16 <= |ls|
  {
    [Fetch(ls, a), Fetch(ls, a + 4), Fetch(ls, a + 8), Fetch(ls, a + 12)]
  }

  function Signed16(v: nat): int
  {
    if v < 0x8000 then v else v - 0x1_0000
  }

  function Wrap(a: int): (r: nat)
    ensures r < LSLR_SIZE
  {
    a % LSLR_SIZE
  }

  function Align4(a: nat): (r: nat)
    ensures r <= a && r % 4 == 0
  {
    a / 4 * 4
  }

  function Align16(a: nat): (r: nat)
    ensures r <= a && r % 16 == 0
  {
    a / 16 * 16
  }

  datatype Instr =
    | Lqr(rt: nat, i16: int)   // load quadword, relative to the instruction
    | Il(rt: nat, i16: int)    // immediate load word
    | Lnop
    | Bisl(rt: nat, ra: nat)   // branch indirect and set link
    | Other

  function Decode(w: Word): (i: Instr)
    ensures InRange(i)
  {
    var i16 := Signed16(w / 128 % 0x1_0000);
    if w / 0x80_0000 == 0x67 then Lqr(w % 128, i16)
    else if w / 0x80_0000 == 0x81 then Il(w % 128, i16)
    else if w / 0x20_0000 == 0x1 then Lnop
    else if w / 0x20_0000 == 0x1a9 then Bisl(w % 128, w / 128 % 128)
    else Other
  }

  /** One instruction of the SPU instruction set architecture, version 1.2; nothing if it
      is none of the four modelled. */
  function Step(m: Spu): (r: Option<Spu>)
    ensures r.Some? ==> Valid(m) && Valid(r.value) && r.value.ls == m.ls
  {
    if Valid(m) then Execute(m, Decode(Fetch(m.ls, m.pc))) else None
  }

  predicate InRange(i: Instr) {
    && (i.Lqr? || i.Il? || i.Bisl? ==> i.rt < 128)
    && (i.Lqr? || i.Il? ==> -0x8000 <= i.i16 < 0x8000)
    && (i.Bisl? ==> i.ra < 128)
  }

  /** The address of the instruction behind this one; the last one is followed by the first. */
  function Next(pc: nat): (r: nat)
    requires pc < LSLR_SIZE && pc % 4 == 0
    ensures r < LSLR_SIZE && r % 4 == 0
  {
    if pc + 4 == LSLR_SIZE then 0 else pc + 4
  }

  function Execute(m: Spu, i: Instr): (r: Option<Spu>)
    requires Valid(m) && InRange(i)
    ensures r.Some? ==> Valid(r.value) && r.value.ls == m.ls
  {
    hide Wrap, Align4, LoadAt, Next;
    var next := Next(m.pc);
    match i
    case Lqr(rt, i16) => Some(With(m, next, rt, LoadAt(m.ls, Wrap(m.pc + 4 * i16))))
    case Il(rt, i16) =>
      var v: Word := if i16 < 0 then i16 + 0x1_0000_0000 else i16;
      Some(With(m, next, rt, [v, v, v, v]))
    case Lnop => Some(m.(pc := next))
    case Bisl(rt, ra) => Some(With(m, Align4(Wrap(m.regs[ra][0])), rt, [next, 0, 0, 0]))
    case Other => None
  }

  function With(m: Spu, pc: nat, rt: nat, q: Quad): Spu
    requires rt < |m.regs|
  {
    m.(pc := pc, regs := m.regs[rt := q])
  }

  /** A quadword load ignores the low four bits of its address. */
  function LoadAt(ls: seq<Byte>, a: nat): Quad
    requires |ls| == LS_SIZE && a < LS_SIZE
  {
    Load(ls, Align16(a))
  }

  /** The state after n steps. */
  function Iterate<S>(step: S -> Option<S>, m: S, n: nat): Option<S> {
    if n == 0 then Some(m)
    else
      var s := step(m);
      if s.None? then None else Iterate(step, s.value, n - 1)
  }

  function Exec(m: Spu, n: nat): Option<Spu> { Iterate(Step, m, n) }

  // ---------- the handoff ----------

  lemma InstalledWord(ls: seq<Byte>, block: seq<Word>, code: seq<Word>, k: nat)
    requires |ls| == LS_SIZE && |block| == 20 && |code| == 12 && k < 32
    ensures Fetch(Installed(ls, block, code), BASE + 4 * k) == (block + code)[k]
  {
    var ws := block + code;
    WordsAt(ws, k);
    assert Installed(ls, block, code)[BASE + 4 * k..BASE + 4 * k + 4] == Words(ws)[4 * k..4 * k + 4];
    WordRoundTrip(ws[k]);
  }

  /** Each word of the code is the instruction its comment says. */
  lemma CodeDecodes()
    ensures Decode(CODE[0]) == Lqr(3, -20)
    ensures Decode(CODE[1]) == Lqr(4, -17)
    ensures Decode(CODE[2]) == Lqr(5, -14)
    ensures Decode(CODE[3]) == Lnop
    ensures Decode(CODE[4]) == Lqr(6, -12)
    ensures Decode(CODE[5]) == Lqr(1, -9)
    ensures Decode(CODE[6]) == Il(2, 0)
    ensures Decode(CODE[7]) == Bisl(1, 1)
  {}

  lemma InstalledQuad(ls: seq<Byte>, block: seq<Word>, code: seq<Word>, k: nat)
    requires |ls| == LS_SIZE && |block| == 20 && |code| == 12 && k % 4 == 0 && k < 32
    ensures Load(Installed(ls, block, code), BASE + 4 * k) == (block + code)[k..k + 4]
  {
    InstalledWord(ls, block, code, k);
    InstalledWord(ls, block, code, k + 1);
    InstalledWord(ls, block, code, k + 2);
    InstalledWord(ls, block, code, k + 3);
  }

  /** The instruction at position j of the installed code is executed as decoded. */
  lemma FetchCode(m: Spu, ls: seq<Byte>, block: seq<Word>, j: nat)
    requires Valid(m) && |ls| == LS_SIZE && |block| == 20 && j < 12
    requires m.ls == Installed(ls, block, CODE) && m.pc == BASE + 80 + 4 * j
    ensures Decode(Fetch(m.ls, m.pc)) == Decode(CODE[j])
  {
    InstalledWord(ls, block, CODE, 20 + j);
  }

  /** An lqr of the installed code fetches the quadword k of the block. */
  lemma LoadBlock(m: Spu, ls: seq<Byte>, block: seq<Word>, j: nat, rt: nat, k: nat)
    requires Valid(m) && |ls| == LS_SIZE && |block| == 20 && j < 8 && rt < 128 && k < 5
    requires m.ls == Installed(ls, block, CODE) && m.pc == BASE + 80 + 4 * j
    requires Decode(CODE[j]) == Lqr(rt, 4 * k - 20 - j)
    ensures Step(m) == Some(With(m, m.pc + 4, rt, block[4 * k..4 * k + 4]))
  {
    hide Decode, Fetch, Load, Installed;
    FetchCode(m, ls, block, j);
    var a := m.pc + 4 * (4 * k - 20 - j);
    assert a == BASE + 4 * (4 * k);
    assert Align16(Wrap(a)) == a;
    InstalledQuad(ls, block, CODE, 4 * k);
    assert (block + CODE)[4 * k..4 * k + 4] == block[4 * k..4 * k + 4];
  }

  lemma {:induction false} IteratePlus<S>(step: S -> Option<S>, m: S, a: nat, b: nat)
    requires Iterate(step, m, a).Some?
    ensures Iterate(step, m, a + b) == Iterate(step, Iterate(step, m, a).value, b)
  {
    if a > 0 { IteratePlus(step, step(m).value, a - 1, b); }
  }

  lemma IterateTwo<S>(step: S -> Option<S>, m: S, m1: S, m2: S)
    requires step(m) == Some(m1) && step(m1) == Some(m2)
    ensures Iterate(step, m, 2) == Some(m2)
  {
    assert Iterate(step, m1, 1) == Some(m2) by { assert Iterate(step, m2, 0) == Some(m2); }
  }

  /** The instructions in pairs: r3 and r4, ... */
  lemma Pair1(m: Spu, ls: seq<Byte>, b: seq<Word>)
    requires Valid(m) && |ls| == LS_SIZE && |b| == 20
    requires m.ls == Installed(ls, b, CODE) && m.pc == BASE + 80
    ensures Exec(m, 2) == Some(With(With(m, BASE + 84, 3, b[0..4]), BASE + 88, 4, b[4..8]))
  {
    hide Decode, Fetch, Load, Installed;
    CodeDecodes();
    LoadBlock(m, ls, b, 0, 3, 0);
    var m1 := With(m, BASE + 84, 3, b[0..4]);
    LoadBlock(m1, ls, b, 1, 4, 1);
    IterateTwo(Step, m, m1, With(m1, BASE + 88, 4, b[4..8]));
  }

  /** ... r5 and the filler, ... */
  lemma Pair2(m: Spu, ls: seq<Byte>, b: seq<Word>)
    requires Valid(m) && |ls| == LS_SIZE && |b| == 20
    requires m.ls == Installed(ls, b, CODE) && m.pc == BASE + 88
    ensures Exec(m, 2) == Some(With(m, BASE + 96, 5, b[8..12]))
  {
    hide Decode, Fetch, Load, Installed;
    CodeDecodes();
    LoadBlock(m, ls, b, 2, 5, 2);
    var m1 := With(m, BASE + 92, 5, b[8..12]);
    FetchCode(m1, ls, b, 3);
    IterateTwo(Step, m, m1, With(m, BASE + 96, 5, b[8..12]));
  }

  /** ... r6 and the entry, ... */
  lemma Pair3(m: Spu, ls: seq<Byte>, b: seq<Word>)
    requires Valid(m) && |ls| == LS_SIZE && |b| == 20
    requires m.ls == Installed(ls, b, CODE) && m.pc == BASE + 96
    ensures Exec(m, 2) == Some(With(With(m, BASE + 100, 6, b[12..16]), BASE + 104, 1, b[16..20]))
  {
    hide Decode, Fetch, Load, Installed;
    CodeDecodes();
    LoadBlock(m, ls, b, 4, 6, 3);
    var m1 := With(m, BASE + 100, 6, b[12..16]);
    LoadBlock(m1, ls, b, 5, 1, 4);
    IterateTwo(Step, m, m1, With(m1, BASE + 104, 1, b[16..20]));
  }

  /** ... and the stack size and the branch. */
  lemma Pair4(m: Spu, ls: seq<Byte>, b: seq<Word>)
    requires Valid(m) && |ls| == LS_SIZE && |b| == 20
    requires m.ls == Installed(ls, b, CODE) && m.pc == BASE + 104
    ensures Exec(m, 2) ==
      Some(With(With(m, BASE + 108, 2, [0, 0, 0, 0]), Align4(Wrap(m.regs[1][0])), 1, [BASE + 112, 0, 0, 0]))
  {
    hide Decode, Fetch, Load, Installed;
    CodeDecodes();
    FetchCode(m, ls, b, 6);
    var m1 := With(m, BASE + 108, 2, [0, 0, 0, 0]);
    FetchCode(m1, ls, b, 7);
    IterateTwo(Step, m, m1, With(m1, Align4(Wrap(m.regs[1][0])), 1, [BASE + 112, 0, 0, 0]));
  }

  /** The machine after the eight instructions. */
  function Final(m: Spu, b: seq<Word>): Spu
    requires Valid(m) && |b| == 20
  {
    var regs := m.regs[3 := b[0..4]][4 := b[4..8]][5 := b[8..12]][6 := b[12..16]]
                      [2 := [0, 0, 0, 0]][1 := [BASE + 112, 0, 0, 0]];
    m.(pc := Align4(Wrap(b[16])), regs := regs)
  }

  lemma ExecAll(m: Spu, ls: seq<Byte>, b: seq<Word>)
    requires Valid(m) && |ls| == LS_SIZE && |b| == 20
    requires m.ls == Installed(ls, b, CODE) && m.pc == BASE + 80
    ensures Exec(m, 8) == Some(Final(m, b))
  {
    hide Installed, Step;
    Pair1(m, ls, b);
    var m2 := Exec(m, 2).value;
    Pair2(m2, ls, b);
    var m4 := Exec(m2, 2).value;
    Pair3(m4, ls, b);
    var m6 := Exec(m4, 2).value;
    Pair4(m6, ls, b);
    IteratePlus(Step, m, 2, 6);
    IteratePlus(Step, m2, 2, 4);
    IteratePlus(Step, m4, 2, 2);
    assert Exec(m6, 2).value.regs == Final(m, b).regs;
  }

  lemma BackChain(ls: seq<Byte>, b: seq<Word>)
    requires |ls| == LS_SIZE && |b| == 20
    ensures Load(Installed(ls, b, CODE), BASE + 112) == [0, 0, 0, 0]
  {
    InstalledQuad(ls, b, CODE, 28);
    assert (b + CODE)[28..32] == CODE[8..12];
  }

  lemma AlignedEntry(e: Word)
    requires e < LS_SIZE && e % 4 == 0
    ensures Align4(Wrap(e)) == e
  {
    assert Wrap(e) == e;
  }

  lemma FinalRegisters(m: Spu, regs: RegState)
    requires Valid(m)
    ensures var f := Final(m, regs.Block());
      && f.pc == Align4(Wrap(regs.entry[0]))
      && f.regs[3] == regs.r3 && f.regs[4] == regs.r4 && f.regs[5] == regs.r5 && f.regs[6] == regs.r6
      && f.regs[2] == [0, 0, 0, 0] && f.regs[1] == [LS_SIZE - 16, 0, 0, 0]
      && f.ls == m.ls
      && forall i :: 7 <= i < 128 || i == 0 ==> f.regs[i] == m.regs[i]
  {
    var b := regs.Block();
    assert b[0..4] == regs.r3 && b[4..8] == regs.r4 && b[8..12] == regs.r5 && b[12..16] == regs.r6;
    assert b[16] == regs.entry[0];
  }

  /** Started at the entry that SetupRegisters returns, with any registers, the SPE reaches
      the program's entry address with the block in r3 to r6, stack size 0 in r2 and r1 at
      the last quadword of local store, which is zero.  Local store differs from what it
      was in the top 128 bytes only. */
  lemma Handoff(ls: seq<Byte>, regs: RegState, start: Spu) returns (m: Spu)
    requires |ls| == LS_SIZE && Valid(start)
    requires start.ls == Installed(ls, regs.Block(), CODE) && start.pc == BASE + 80
    ensures Exec(start, 8) == Some(m)
    ensures m.pc == Align4(Wrap(regs.entry[0]))
    ensures regs.entry[0] < LS_SIZE && regs.entry[0] % 4 == 0 ==> m.pc == regs.entry[0]
    ensures |m.regs| == 128
    ensures m.regs[3] == regs.r3 && m.regs[4] == regs.r4 && m.regs[5] == regs.r5 && m.regs[6] == regs.r6
    ensures m.regs[2] == [0, 0, 0, 0]
    ensures m.regs[1] == [LS_SIZE - 16, 0, 0, 0]
    ensures |m.ls| == LS_SIZE && Load(m.ls, LS_SIZE - 16) == [0, 0, 0, 0]
    ensures m.ls[..BASE] == ls[..BASE]
    ensures forall i :: 7 <= i < 128 || i == 0 ==> m.regs[i] == start.regs[i]
  {
    var b := regs.Block();
    ExecAll(start, ls, b);
    m := Final(start, b);
    FinalRegisters(start, regs);
    BackChain(ls, b);
    if regs.entry[0] < LS_SIZE && regs.entry[0] % 4 == 0 { AlignedEntry(regs.entry[0]); }
  }

  // ---------- what run.c puts into the block ----------

  /** A 64-bit value as the first two words of a register. */
  function Halves(v: nat): Quad
    requires v < 0x1_0000_0000 * 0x1_0000_0000
  {
    [v / 0x1_0000_0000, v % 0x1_0000_0000, 0, 0]
  }

  /** The arguments of one run: the three quadwords behind argp when the caller passes
      registers (SPE_RUN_USER_REGS), its two pointers otherwise. */
  datatype Args = UserRegs(q3: Quad, q4: Quad, q5: Quad) | Pointers(argp: Addr64, envp: Addr64)

  function ArgumentBlock(spe: Addr64, mapped: Addr64, args: Args, entry: Word): RegState {
    match args
    case UserRegs(q3, q4, q5) => RegState(q3, q4, q5, Halves(mapped), [entry, 0, 0, 0])
    case Pointers(argp, envp) =>
      RegState(Halves(spe), Halves(argp), Halves(envp), Halves(mapped), [entry, 0, 0, 0])
  }

  /** Assigning the two halves of a value to the first two slots. */
  function SetHalves(q: Quad, v: Addr64): (r: Quad)
    ensures q[2] == q[3] == 0 ==> r == Halves(v)
  {
    [v / 0x1_0000_0000, v % 0x1_0000_0000] + q[2..]
  }

  /** The block is built in place: cleared, filled in either way, completed. */
  method BuildBlock(spe: Addr64, mapped: Addr64, args: Args, entry: Word) returns (regs: RegState)
    ensures regs == ArgumentBlock(spe, mapped, args, entry)
  {
    var zero: Quad := [0, 0, 0, 0];
    regs := RegState(zero, zero, zero, zero, zero);
    match args {
      case UserRegs(q3, q4, q5) =>
        regs := regs.(r3 := q3, r4 := q4, r5 := q5);
      case Pointers(argp, envp) =>
        regs := regs.(r3 := SetHalves(regs.r3, spe));
        regs := regs.(r4 := SetHalves(regs.r4, argp));
        regs := regs.(r5 := SetHalves(regs.r5, envp));
    }
    regs := regs.(r6 := SetHalves(regs.r6, mapped));
    regs := regs.(entry := [entry] + regs.entry[1..]);
    assert regs.entry == [entry, 0, 0, 0];
  }

  /** The 64-bit value in the first two words of a register. */
  function Joined(q: Quad): int {
    (q[0] as int) * 0x1_0000_0000 + q[1] as int
  }

  lemma HalvesValue(v: Addr64)
    ensures Joined(Halves(v)) == v
  {}

  /** End to end: from the arguments of a run to the registers at the program's entry. */
  lemma ArgumentsDelivered(ls: seq<Byte>, spe: Addr64, mapped: Addr64, args: Args, entry: Word, start: Spu)
    returns (m: Spu)
    requires |ls| == LS_SIZE && Valid(start) && entry < LS_SIZE && entry % 4 == 0
    requires start.ls == Installed(ls, ArgumentBlock(spe, mapped, args, entry).Block(), CODE)
    requires start.pc == BASE + 80
    ensures Exec(start, 8) == Some(m) && m.pc == entry && |m.regs| == 128
    ensures Joined(m.regs[6]) == mapped
    ensures args.UserRegs? ==> m.regs[3] == args.q3 && m.regs[4] == args.q4 && m.regs[5] == args.q5
    ensures args.Pointers? ==>
      && Joined(m.regs[3]) == spe
      && Joined(m.regs[4]) == args.argp
      && Joined(m.regs[5]) == args.envp
    ensures m.ls[..BASE] == ls[..BASE]
  {
    m := Handoff(ls, ArgumentBlock(spe, mapped, args, entry), start);
    HalvesValue(spe);
    HalvesValue(mapped);
    if args.Pointers? {
      HalvesValue(args.argp);
      HalvesValue(args.envp);
    }
  }
}
