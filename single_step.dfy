// Software single-step for the PowerPC AmigaOS target: the next-PC candidates
// of the instruction at the program counter, and the branch decoder they
// come from. Instruction words are C `int`s (signed 32-bit) and addresses are
// CORE_ADDRs; C's shifts, masks and conversions are written out as integer
// arithmetic: `x >> n` on a signed value is floor division by 2^n, `x & ~3`
// clears the low two bits, `<<` wraps to 32 bits, and a conversion to
// CORE_ADDR reduces modulo 2^64.
module PpcSingleStep {
  import opened NatDefs

  /** C `int`. */
  newtype int32 = x: int | -0x8000_0000 <= x < 0x8000_0000

  const PPC_INSN_SIZE: int := 4

  /** `(CORE_ADDR) -1`: the decoder's "no target" answer. */
  const NO_TARGET: CoreAddr := 0xFFFF_FFFF_FFFF_FFFF

  /** The `int` a 32-bit pattern is read as (two's complement). */
  function ToInt32(x: int): (r: int32)
    ensures (r as int - x) % 0x1_0000_0000 == 0
  {
    var u := x % 0x1_0000_0000;
    if u >= 0x8000_0000 then (u - 0x1_0000_0000) as int32 else u as int32
  }

  /** `x & ~3` for an integer of either sign: round down to a multiple of 4. */
  function ClearLow2(x: int): (r: int)
    ensures r % 4 == 0 && x - 4 < r <= x
  {
    x - x % 4
  }

  /** `((instr & ~3) << 6) >> 6`: the displacement of an I-form branch. */
  function BImmediate(instr: int32): int
  {
    ToInt32(ClearLow2(instr as int) * 0x40) as int / 0x40
  }

  /** `((instr & ~3) << 16) >> 16`: the displacement of a B-form branch. */
  function BcImmediate(instr: int32): int
  {
    ToInt32(ClearLow2(instr as int) * 0x1_0000) as int / 0x1_0000
  }

  /** `instr >> 26`, the primary opcode as the source computes it: for a
      word with the top bit set this is negative. */
  function Opcode(instr: int32): int
  {
    instr as int / 0x400_0000
  }

  /** branch_dest: the target of the branch at `pc`, or NO_TARGET. Bit 1
      (AA) selects an absolute target for opcodes 18 and 16; opcode 19
      branches to LR (extended opcode 16) or CTR (528) with the low two
      bits cleared. */
  function BranchDest(opcode: int, instr: int32, pc: CoreAddr, lr: CoreAddr, ctr: CoreAddr): (r: CoreAddr)
    ensures opcode !in {16, 18, 19} ==> r == NO_TARGET
  {
    var absolute := (instr as int / 2) % 2;
    if opcode == 18 then
      var immediate := BImmediate(instr);
      if absolute != 0 then ToCoreAddr(immediate) else ToCoreAddr(pc as int + immediate)
    else if opcode == 16 then
      var immediate := BcImmediate(instr);
      if absolute != 0 then ToCoreAddr(immediate) else ToCoreAddr(pc as int + immediate)
    else if opcode == 19 then
      var extOp := (instr as int / 2) % 0x400;
      if extOp == 16 then ClearLow2(lr as int) as CoreAddr
      else if extOp == 528 then ClearLow2(ctr as int) as CoreAddr
      else NO_TARGET
    else NO_TARGET
  }

  // ---------------------------------------------------------------------
  // The branch instructions as Power ISA Book I, section 2.4 defines them,
  // on the unsigned instruction word.

  function Word(instr: int32): (u: int)
    ensures 0 <= u < 0x1_0000_0000
  {
    instr as int % 0x1_0000_0000
  }

  /** Primary opcode: bits 0..5. */
  function PO(instr: int32): int { Word(instr) / 0x400_0000 }
  /** AA: bit 30. */
  function AA(instr: int32): int { Word(instr) / 2 % 2 }
  /** LI: bits 6..29 of an I-form branch. */
  function LI(instr: int32): int { Word(instr) / 4 % 0x100_0000 }
  /** BD: bits 16..29 of a B-form branch. */
  function BD(instr: int32): int { Word(instr) / 4 % 0x4000 }
  /** XO: bits 21..30 of an XL-form instruction. */
  function XO(instr: int32): int { Word(instr) / 2 % 0x400 }

  /** EXTS of a `bits`-wide field value. */
  function Exts(v: int, bits: nat): int
    requires bits > 0
  {
    if v >= Pow2(bits - 1) then v - Pow2(bits) else v
  }

  function Pow2(n: nat): (r: nat)
    ensures r > 0
  {
    if n == 0 then 1 else 2 * Pow2(n - 1)
  }

  /** The next address a branch instruction can transfer control to:
      `b` (PO 18) to EXTS(LI || 0b00), `bc` (PO 16) to EXTS(BD || 0b00),
      either taken relative to the instruction's address unless AA is set;
      `bclr` and `bcctr` (PO 19, XO 16 and 528) to LR or CTR with the low
      two bits replaced by zeros. Any other instruction has no target. */
  function IsaBranchTarget(instr: int32, pc: CoreAddr, lr: CoreAddr, ctr: CoreAddr): Option<CoreAddr>
  {
    if PO(instr) == 18 then
      var d := Exts(LI(instr) * 4, 26);
      Some(if AA(instr) == 1 then ToCoreAddr(d) else ToCoreAddr(pc as int + d))
    else if PO(instr) == 16 then
      var d := Exts(BD(instr) * 4, 16);
      Some(if AA(instr) == 1 then ToCoreAddr(d) else ToCoreAddr(pc as int + d))
    else if PO(instr) == 19 && XO(instr) == 16 then
      Some((lr as int - lr as int % 4) as CoreAddr)
    else if PO(instr) == 19 && XO(instr) == 528 then
      Some((ctr as int - ctr as int % 4) as CoreAddr)
    else None
  }

  lemma Pow2Values()
    ensures Pow2(15) == 0x8000 && Pow2(16) == 0x1_0000
    ensures Pow2(25) == 0x200_0000 && Pow2(26) == 0x400_0000
  {
    assert Pow2(8) == 0x100;
    assert Pow2(15) == 0x8000;
    assert Pow2(16) == 0x1_0000;
    assert Pow2(24) == 0x100_0000;
  }

  lemma MulMono(a: int, m: int)
    requires a >= 1 && m > 0
    ensures a * m >= m
  {
    var k := a - 1;
    assert a * m == k * m + m;
    assert k * m >= 0;
  }

  /** Quotient and remainder are determined by any decomposition
      `x == q * m + r` with `0 <= r < m`. */
  lemma DivModUnique(x: int, m: int, q: int, r: int)
    requires m > 0 && 0 <= r < m && x == q * m + r
    ensures x / m == q && x % m == r
  {
    var q0, r0 := x / m, x % m;
    assert x == q0 * m + r0;
    assert (q - q0) * m == r0 - r;
    assert (q0 - q) * m == r - r0;
    if q > q0 {
      MulMono(q - q0, m);
    } else if q < q0 {
      MulMono(q0 - q, m);
    }
  }

  /** `instr & ~3` is the unsigned word with its low two bits cleared, up
      to a multiple of 2^32. */
  lemma ClearLow2OfWord(instr: int32) returns (q: int, v: int)
    ensures v == Word(instr) / 4
    ensures ClearLow2(instr as int) == 4 * v + q * 0x1_0000_0000
    ensures instr as int == q * 0x1_0000_0000 + Word(instr)
  {
    var i, u := instr as int, Word(instr);
    q := i / 0x1_0000_0000;
    v := u / 4;
    assert u == 4 * v + u % 4;
    DivModUnique(i, 4, q * 0x4000_0000 + v, u % 4);
  }

  /** The `<< 6 >> 6` pair sign-extends the 26-bit field LI || 0b00. */
  lemma BImmediateIsExtsLI(instr: int32)
    ensures BImmediate(instr) == Exts(LI(instr) * 4, 26)
  {
    Pow2Values();
    var q, v := ClearLow2OfWord(instr);
    var li := v % 0x100_0000;
    var f := 4 * li;
    assert LI(instr) == li;
    var w := v / 0x100_0000;
    assert v == w * 0x100_0000 + li;
    var c := ClearLow2(instr as int);
    var shifted := c * 0x40;
    assert shifted == (q * 0x40 + w) * 0x1_0000_0000 + f * 0x40;
    DivModUnique(shifted, 0x1_0000_0000, q * 0x40 + w, f * 0x40);
    if f >= 0x200_0000 {
      assert ToInt32(shifted) as int == f * 0x40 - 0x1_0000_0000;
      DivModUnique(f * 0x40 - 0x1_0000_0000, 0x40, f - 0x400_0000, 0);
    } else {
      assert ToInt32(shifted) as int == f * 0x40;
      DivModUnique(f * 0x40, 0x40, f, 0);
    }
  }

  /** The `<< 16 >> 16` pair sign-extends the 16-bit field BD || 0b00. */
  lemma BcImmediateIsExtsBD(instr: int32)
    ensures BcImmediate(instr) == Exts(BD(instr) * 4, 16)
  {
    Pow2Values();
    var q, v := ClearLow2OfWord(instr);
    var bd := v % 0x4000;
    var f := 4 * bd;
    assert BD(instr) == bd;
    var w := v / 0x4000;
    assert v == w * 0x4000 + bd;
    var c := ClearLow2(instr as int);
    var shifted := c * 0x1_0000;
    assert shifted == (q * 0x1_0000 + w) * 0x1_0000_0000 + f * 0x1_0000;
    DivModUnique(shifted, 0x1_0000_0000, q * 0x1_0000 + w, f * 0x1_0000);
    if f >= 0x8000 {
      assert ToInt32(shifted) as int == f * 0x1_0000 - 0x1_0000_0000;
      DivModUnique(f * 0x1_0000 - 0x1_0000_0000, 0x1_0000, f - 0x1_0000, 0);
    } else {
      assert ToInt32(shifted) as int == f * 0x1_0000;
      DivModUnique(f * 0x1_0000, 0x1_0000, f, 0);
    }
  }

  /** The signed shift gives the primary opcode for words with the top bit
      clear and a negative number otherwise, so it selects one of the
      branch cases exactly when the primary opcode does. */
  lemma OpcodeSelectsPrimaryOpcode(instr: int32)
    ensures Opcode(instr) in {16, 18, 19} <==> PO(instr) in {16, 18, 19}
    ensures Opcode(instr) in {16, 18, 19} ==> Opcode(instr) == PO(instr)
  {
    if instr < 0 {
      assert Opcode(instr) < 0;
    } else {
      DivModUnique(instr as int, 0x1_0000_0000, 0, instr as int);
    }
  }

  /** The bit fields the decoder reads through the signed word are those
      of the unsigned word. */
  lemma SignedFieldsMatch(instr: int32)
    ensures (instr as int / 2) % 2 == AA(instr)
    ensures (instr as int / 2) % 0x400 == XO(instr)
  {
    var i, u := instr as int, Word(instr);
    var q := i / 0x1_0000_0000;
    assert i == q * 0x1_0000_0000 + u;
    DivModUnique(i, 2, q * 0x8000_0000 + u / 2, u % 2);
    var h := u / 2;
    DivModUnique(i / 2, 2, q * 0x4000_0000 + h / 2, h % 2);
    DivModUnique(i / 2, 0x400, q * 0x20_0000 + h / 0x400, h % 0x400);
  }

  /** branch_dest, fed the source's opcode, computes exactly the ISA's
      branch target, and NO_TARGET where the instruction has none. */
  lemma BranchDestMatchesIsa(instr: int32, pc: CoreAddr, lr: CoreAddr, ctr: CoreAddr)
    ensures BranchDest(Opcode(instr), instr, pc, lr, ctr) ==
      match IsaBranchTarget(instr, pc, lr, ctr)
      case Some(t) => t
      case None => NO_TARGET
  {
    OpcodeSelectsPrimaryOpcode(instr);
    SignedFieldsMatch(instr);
    var op := Opcode(instr);
    if op == 18 {
      BImmediateIsExtsLI(instr);
    } else if op == 16 {
      BcImmediateIsExtsBD(instr);
    } else if op != 19 {
      assert PO(instr) !in {16, 18, 19};
    }
  }

  /** Reducing modulo 2^64 keeps the residue modulo 4. */
  lemma WrapKeepsMod4(x: int)
    ensures ToCoreAddr(x) as int % 4 == x % 4
  {
    var M := 0x1_0000_0000_0000_0000;
    var t := x % M;
    assert ToCoreAddr(x) as int == t;
    assert x == (x / M) * M + t;
    assert t == 4 * (t / 4) + t % 4;
    DivModUnique(x, 4, (x / M) * 0x4000_0000_0000_0000 + t / 4, t % 4);
  }

  /** Both displacements are multiples of 4. */
  lemma ImmediatesAligned(instr: int32)
    ensures BImmediate(instr) % 4 == 0 && BcImmediate(instr) % 4 == 0
  {
    BImmediateIsExtsLI(instr);
    BcImmediateIsExtsBD(instr);
    Pow2Values();
    var f, g := LI(instr) * 4, BD(instr) * 4;
    if f >= 0x200_0000 {
      DivModUnique(BImmediate(instr), 4, LI(instr) - 0x100_0000, 0);
    } else {
      DivModUnique(BImmediate(instr), 4, LI(instr), 0);
    }
    if g >= 0x8000 {
      DivModUnique(BcImmediate(instr), 4, BD(instr) - 0x4000, 0);
    } else {
      DivModUnique(BcImmediate(instr), 4, BD(instr), 0);
    }
  }

  /** Adding a multiple of 4 and wrapping keeps the residue modulo 4. */
  lemma OffsetKeepsMod4(base: int, imm: int)
    requires imm % 4 == 0
    ensures ToCoreAddr(base + imm) as int % 4 == base % 4
  {
    WrapKeepsMod4(base + imm);
    assert imm == 4 * (imm / 4);
    DivModUnique(base + imm, 4, base / 4 + imm / 4, base % 4);
  }

  /** Branch targets keep word alignment: an absolute or register target
      is a multiple of 4, a relative one has the alignment of the branch. */
  lemma BranchTargetAlignment(instr: int32, pc: CoreAddr, lr: CoreAddr, ctr: CoreAddr)
    requires Opcode(instr) in {16, 18, 19}
    requires BranchDest(Opcode(instr), instr, pc, lr, ctr) != NO_TARGET
    ensures Opcode(instr) == 19 || (instr as int / 2) % 2 != 0 ==>
      BranchDest(Opcode(instr), instr, pc, lr, ctr) as int % 4 == 0
    ensures Opcode(instr) != 19 && (instr as int / 2) % 2 == 0 ==>
      BranchDest(Opcode(instr), instr, pc, lr, ctr) as int % 4 == pc as int % 4
  {
    if Opcode(instr) != 19 {
      var imm := if Opcode(instr) == 18 then BImmediate(instr) else BcImmediate(instr);
      ImmediatesAligned(instr);
      OffsetKeepsMod4(0, imm);
      OffsetKeepsMod4(pc as int, imm);
    }
  }

  /** The candidates the single-step routine pushes when the atomic
      sequence helper found none: the fall-through address, then the
      branch target unless it equals the fall-through; NO_TARGET entries
      are skipped. */
  function Candidates(loc: CoreAddr, instr: int32, lr: CoreAddr, ctr: CoreAddr): seq<CoreAddr>
  {
    var fallThrough := ToCoreAddr(loc as int + PPC_INSN_SIZE);
    var target := BranchDest(Opcode(instr), instr, loc, lr, ctr);
    var second := if target == fallThrough then NO_TARGET else target;
    (if fallThrough != NO_TARGET then [fallThrough] else []) +
    (if second != NO_TARGET then [second] else [])
  }

  /** ppc_amigaos_software_single_step. The instruction word, LR, CTR and
      the result of the atomic-sequence helper are inputs. */
  method SoftwareSingleStep(loc: CoreAddr, instr: int32, lr: CoreAddr, ctr: CoreAddr, atomic: seq<CoreAddr>)
    returns (nextPcs: seq<CoreAddr>)
    ensures atomic != [] ==> nextPcs == atomic
    ensures atomic == [] ==> nextPcs == Candidates(loc, instr, lr, ctr)
  {
    nextPcs := atomic;
    if nextPcs != [] {
      return;
    }
    var breaks := new CoreAddr[2];
    breaks[0] := ToCoreAddr(loc as int + PPC_INSN_SIZE);
    var opcode := instr as int / 0x400_0000;
    breaks[1] := BranchDest(opcode, instr, loc, lr, ctr);
    if breaks[1] == breaks[0] {
      breaks[1] := NO_TARGET;
    }
    var ii := 0;
    while ii < 2
      invariant 0 <= ii <= 2
      invariant nextPcs == (if ii > 0 && breaks[0] != NO_TARGET then [breaks[0]] else []) +
                           (if ii > 1 && breaks[1] != NO_TARGET then [breaks[1]] else [])
    {
      if breaks[ii] != NO_TARGET {
        nextPcs := nextPcs + [breaks[ii]];
      }
      ii := ii + 1;
    }
  }

  /** Below the top of the address space the candidate list has one or two
      entries, starts with the fall-through, repeats no address and never
      holds NO_TARGET; the branch target is in it exactly when the decoder
      found one that differs from the fall-through. */
  lemma CandidatesShape(loc: CoreAddr, instr: int32, lr: CoreAddr, ctr: CoreAddr)
    requires loc as int + PPC_INSN_SIZE < NO_TARGET as int
    ensures var c := Candidates(loc, instr, lr, ctr);
      1 <= |c| <= 2 && c[0] as int == loc as int + PPC_INSN_SIZE &&
      NO_TARGET !in c && (|c| == 2 ==> c[0] != c[1])
    ensures var c := Candidates(loc, instr, lr, ctr);
      var t := BranchDest(Opcode(instr), instr, loc, lr, ctr);
      (|c| == 2 <==> t != NO_TARGET && t as int != loc as int + PPC_INSN_SIZE) &&
      (|c| == 2 ==> c[1] == t)
  {
  }

  /** At the very top of the address space the fall-through wraps to
      NO_TARGET and is dropped, so the list may be empty. */
  lemma FallThroughDroppedAtTop(instr: int32, lr: CoreAddr, ctr: CoreAddr)
    ensures Candidates(0xFFFF_FFFF_FFFF_FFFB, instr, lr, ctr) ==
      var t := BranchDest(Opcode(instr), instr, 0xFFFF_FFFF_FFFF_FFFB, lr, ctr);
      if t != NO_TARGET then [t] else []
  {
  }

  /** ppc_amigaos_has_shared_address_space: debugger and inferior share one
      address space. */
  function HasSharedAddressSpace(): (r: bool)
    ensures r
  {
    true
  }
}
