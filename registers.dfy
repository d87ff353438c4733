// fetch_registers: which field of the kernel's exception context each GDB
// register number is copied from. The register cache itself is outside the
// model; a fetch is described by the list of (register number, context
// field) pairs it hands to the cache, in order.
module RegisterFetch {
  import opened NatDefs

  /** The register numbers the architecture description assigns: the
      program counter and the PowerPC special registers. A negative number
      marks a register the architecture does not have. */
  datatype RegisterNumbers = RegisterNumbers(
    pc: int, ps: int, cr: int, lr: int, ctr: int, xer: int, fpscr: int,
    vr0: int, vrsave: int)

  /** The part of the exception context a supply copies from. `Gpr(i)` and
      `Fpr(i)` are the i-th array elements; `VectorBlock` is the 532-byte
      vector block starting at `vscr`, handed to the vector regset. */
  datatype ContextField =
    | Ip | Gpr(index: int) | Fpr(index: int) | VectorBlock
    | Msr | Cr | Lr | Ctr | Xer | Fpscr | Vr | VrSave

  /** One supply handed to the register cache, or the fatal internal error
      for a number the dispatch has no case for. */
  datatype FetchResult = Supply(regnum: int, field: ContextField) | InternalError(regnum: int)

  /** GDB's test for an AltiVec register: both vector numbers exist and the
      register lies between VR0 and VRSAVE inclusive. */
  predicate AltivecRegister(t: RegisterNumbers, regno: int)
  {
    t.vr0 >= 0 && t.vrsave >= 0 && t.vr0 <= regno <= t.vrsave
  }

  /** The register numbers that have a case in the single-register dispatch. */
  predicate Handled(t: RegisterNumbers, regno: int)
  {
    regno == t.pc || 0 <= regno <= 64 || AltivecRegister(t, regno) ||
    regno in {t.ps, t.cr, t.lr, t.ctr, t.xer, t.fpscr, t.vr0, t.vrsave}
  }

  /** The single-register branch of fetch_registers: the tests run in source
      order, the first that matches decides. A floating-point register
      number `regno` in 32..64 reads `fpr[regno]`, not `fpr[regno - 32]`. */
  function FetchOne(t: RegisterNumbers, regno: int): (r: FetchResult)
    ensures r.regnum == regno
    ensures r.InternalError? <==> !Handled(t, regno)
    ensures regno == t.pc ==> r == Supply(regno, Ip)
    ensures regno != t.pc && 0 <= regno <= 31 ==> r == Supply(regno, Gpr(regno))
    ensures regno != t.pc && !(0 <= regno <= 31) && AltivecRegister(t, regno) ==> r == Supply(regno, VectorBlock)
    ensures regno != t.pc && 32 <= regno <= 64 && !AltivecRegister(t, regno) ==> r == Supply(regno, Fpr(regno))
  {
    if regno == t.pc then Supply(regno, Ip)
    else if 0 <= regno <= 31 then Supply(regno, Gpr(regno))
    else if AltivecRegister(t, regno) then Supply(regno, VectorBlock)
    else if 32 <= regno <= 64 then Supply(regno, Fpr(regno))
    else if regno == t.ps then Supply(regno, Msr)
    else if regno == t.cr then Supply(t.cr, Cr)
    else if regno == t.lr then Supply(t.lr, Lr)
    else if regno == t.ctr then Supply(t.ctr, Ctr)
    else if regno == t.xer then Supply(t.xer, Xer)
    else if regno == t.fpscr then Supply(t.fpscr, Fpscr)
    else if regno == t.vr0 then Supply(t.vr0, Vr)
    else if regno == t.vrsave then Supply(t.vrsave, VrSave)
    else InternalError(regno)
  }

  /** fetch_registers. With `regno == -1` every register is supplied; the
      two array loops run for indices 0..30 and pass `regno` (that is, -1)
      as the register number on every iteration, and the vector block is
      supplied only when both vector numbers exist. Otherwise the result is
      the single supply (or internal error) of FetchOne. */
  method FetchRegisters(t: RegisterNumbers, regno: int) returns (supplies: seq<FetchResult>)
    ensures regno != -1 ==> supplies == [FetchOne(t, regno)]
    ensures regno == -1 ==>
      |supplies| == 62 + 6 + 1 + (if t.vr0 != -1 && t.vrsave != -1 then 1 else 0) &&
      (forall i :: 0 <= i < 31 ==> supplies[i] == Supply(-1, Gpr(i)) && supplies[31 + i] == Supply(-1, Fpr(i))) &&
      supplies[62..69] == [Supply(t.pc, Ip), Supply(t.ps, Msr), Supply(t.cr, Cr), Supply(t.lr, Lr),
                           Supply(t.ctr, Ctr), Supply(t.xer, Xer), Supply(t.fpscr, Fpscr)] &&
      (t.vr0 != -1 && t.vrsave != -1 ==> supplies[69] == Supply(-1, VectorBlock))
    ensures regno == -1 ==>
      forall i :: 0 <= i < |supplies| ==> supplies[i].Supply? && supplies[i].field !in {Gpr(31), Fpr(31)}
  {
    if regno != -1 {
      return [FetchOne(t, regno)];
    }
    supplies := [];
    var i := 0;
    while i < 31
      invariant 0 <= i <= 31
      invariant |supplies| == i
      invariant forall k :: 0 <= k < i ==> supplies[k] == Supply(-1, Gpr(k))
      invariant forall k :: 0 <= k < |supplies| ==> supplies[k].Supply? && supplies[k].field !in {Gpr(31), Fpr(31)}
    {
      supplies := supplies + [Supply(regno, Gpr(i))];
      i := i + 1;
    }
    i := 0;
    while i < 31
      invariant 0 <= i <= 31
      invariant |supplies| == 31 + i
      invariant forall k :: 0 <= k < 31 ==> supplies[k] == Supply(-1, Gpr(k))
      invariant forall k :: 0 <= k < i ==> supplies[31 + k] == Supply(-1, Fpr(k))
      invariant forall k :: 0 <= k < |supplies| ==> supplies[k].Supply? && supplies[k].field !in {Gpr(31), Fpr(31)}
    {
      supplies := supplies + [Supply(regno, Fpr(i))];
      i := i + 1;
    }
    supplies := supplies + [Supply(t.pc, Ip), Supply(t.ps, Msr), Supply(t.cr, Cr), Supply(t.lr, Lr),
                            Supply(t.ctr, Ctr), Supply(t.xer, Xer), Supply(t.fpscr, Fpscr)];
    if t.vr0 != -1 && t.vrsave != -1 {
      supplies := supplies + [Supply(regno, VectorBlock)];
    }
  }

  /** The floating-point branch is taken exactly for the numbers 32..64
      that are neither the PC nor AltiVec registers, and it indexes the
      32-entry `fpr` array with the register number itself, which is never a
      valid index there. */
  lemma FprBranchIndexesPastArray(t: RegisterNumbers, regno: int)
    ensures FetchOne(t, regno).Supply? && FetchOne(t, regno).field.Fpr? <==>
      regno != t.pc && 32 <= regno <= 64 && !AltivecRegister(t, regno)
    ensures FetchOne(t, regno).Supply? && FetchOne(t, regno).field.Fpr? ==>
      FetchOne(t, regno).field.index == regno && !(0 <= FetchOne(t, regno).field.index < 32)
  {
  }

  /** With both vector numbers present and VR0 below VRSAVE, VR0 and VRSAVE
      are AltiVec registers, so the dedicated VR0 and VRSAVE cases come too
      late to be taken: those registers go through the vector regset. */
  lemma VectorCasesShadowedByRegset(t: RegisterNumbers, regno: int)
    requires 0 <= t.vr0 <= t.vrsave
    requires FetchOne(t, regno).Supply?
    ensures FetchOne(t, regno).field != Vr && FetchOne(t, regno).field != VrSave
  {
  }

  /** Every number the dispatch handles gives exactly one supply of that
      number, and the special registers are reached only past the general,
      AltiVec and floating-point ranges. */
  lemma SpecialRegistersAfterRanges(t: RegisterNumbers, regno: int)
    requires regno != t.pc && !(0 <= regno <= 64) && !AltivecRegister(t, regno)
    ensures regno == t.ps ==> FetchOne(t, regno) == Supply(regno, Msr)
    ensures regno != t.ps && regno == t.cr ==> FetchOne(t, regno) == Supply(regno, Cr)
    ensures regno != t.ps && regno != t.cr && regno == t.lr ==> FetchOne(t, regno) == Supply(regno, Lr)
    ensures regno !in {t.ps, t.cr, t.lr} && regno == t.ctr ==> FetchOne(t, regno) == Supply(regno, Ctr)
    ensures regno !in {t.ps, t.cr, t.lr, t.ctr} && regno == t.xer ==> FetchOne(t, regno) == Supply(regno, Xer)
    ensures regno !in {t.ps, t.cr, t.lr, t.ctr, t.xer} && regno == t.fpscr ==>
      FetchOne(t, regno) == Supply(regno, Fpscr)
    ensures regno !in {t.ps, t.cr, t.lr, t.ctr, t.xer, t.fpscr} && regno == t.vr0 ==>
      FetchOne(t, regno) == Supply(regno, Vr)
    ensures regno !in {t.ps, t.cr, t.lr, t.ctr, t.xer, t.fpscr, t.vr0} && regno == t.vrsave ==>
      FetchOne(t, regno) == Supply(regno, VrSave)
    ensures regno !in {t.ps, t.cr, t.lr, t.ctr, t.xer, t.fpscr, t.vr0, t.vrsave} ==>
      FetchOne(t, regno) == InternalError(regno)
  {
  }

  /** Where register `regnum` sits in a register map: byte offset and width. */
  function RegMapSlot(m: seq<RegMapEntry>, regnum: int): (r: Option<(nat, nat)>)
    ensures r.Some? ==> r.value.0 + r.value.1 <= RegMapSize(m)
    ensures r.Some? ==> exists k :: 0 <= k < |m| && m[k].size == r.value.1
  {
    if m == [] then None
    else if m[0].regnum <= regnum < m[0].regnum + m[0].count then
      SlotInEntry(m[0], regnum - m[0].regnum);
      Some(((regnum - m[0].regnum) * m[0].size, m[0].size))
    else
      match RegMapSlot(m[1..], regnum)
      case None => None
      case Some(slot) =>
        var k :| 0 <= k < |m[1..]| && m[1..][k].size == slot.1;
        assert m[k + 1].size == slot.1;
        Some((m[0].count * m[0].size + slot.0, slot.1))
  }

  predicate SlotIs(r: Option<(nat, nat)>, offset: int, size: int)
  {
    r.Some? && r.value.0 == offset && r.value.1 == size
  }

  lemma SlotInEntry(e: RegMapEntry, i: nat)
    requires i < e.count
    ensures i * e.size + e.size <= e.count * e.size
  {
    assert (i + 1) * e.size <= e.count * e.size by {
      assert i + 1 <= e.count;
    }
  }

  /** In the vector register block, VSCR sits at offset 0, VR0+k at 16+16k
      and VRSAVE at 528, and every slot ends within the 532-byte block,
      whatever the numbering, as long as VSCR, VRSAVE and the 32 vector
      registers have distinct numbers. */
  lemma VectorBlockLayout(vscr: int, vr0: int, vrsave: int, k: nat)
    requires k < 32
    requires vscr != vrsave && !(vr0 <= vscr < vr0 + 32) && !(vr0 <= vrsave < vr0 + 32)
    ensures SlotIs(RegMapSlot(VrRegMap(vscr, vr0, vrsave), vscr), 0, 16)
    ensures SlotIs(RegMapSlot(VrRegMap(vscr, vr0, vrsave), vr0 + k), 16 + 16 * k, 16)
    ensures SlotIs(RegMapSlot(VrRegMap(vscr, vr0, vrsave), vrsave), 528, 4)
    ensures 16 + 16 * k + 16 <= PPC_AMIGAOS_SIZEOF_VRREGSET
  {
    var m := VrRegMap(vscr, vr0, vrsave);
    assert m[1..][1..] == m[2..];
    assert m[2..][1..] == [];
    assert SlotIs(RegMapSlot(m[2..], vrsave), 0, 4);
    assert SlotIs(RegMapSlot(m[1..], vrsave), 512, 4);
    VrRegSetSizeMatchesMap(vscr, vr0, vrsave);
  }
}
