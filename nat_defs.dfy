// Vocabulary shared by the AmigaOS PowerPC debugger back end: the interrupt
// vectors of the PowerPC Power ISA Book III (v2.01) as the kernel reports them
// in an exception context, the MSR exception-reason bits, the flags of a
// debugger message, the size of the vector register block, and the GDB signal
// numbers the classifier produces.
module NatDefs {

  datatype Option<T> = None | Some(value: T)

  /** C `uint32`: the type of the `flags` and `signal` fields of a debugger message. */
  newtype uint32 = x: int | 0 <= x < 0x1_0000_0000

  /** The value an `int` takes once it is stored into a `uint32` field
      (two's complement truncation, as C's conversion to unsigned does). */
  function ToUint32(x: int): (r: uint32)
    ensures r as int % 0x1_0000_0000 == x % 0x1_0000_0000
  {
    (x % 0x1_0000_0000) as uint32
  }

  /** GDB's CORE_ADDR: an unsigned 64-bit address. */
  newtype CoreAddr = x: int | 0 <= x < 0x1_0000_0000_0000_0000

  /** The CORE_ADDR an integer becomes: C's conversion to an unsigned
      64-bit type, that is, the value modulo 2^64. */
  function ToCoreAddr(x: int): (r: CoreAddr)
    ensures (r as int - x) % 0x1_0000_0000_0000_0000 == 0
  {
    (x % 0x1_0000_0000_0000_0000) as CoreAddr
  }

  // Size of the vector register block handed to the regset supplier.
  const PPC_AMIGAOS_SIZEOF_VRREGSET: int := 532

  // Interrupt vectors (trap types).
  const TRAP_RESET: uint32 := 0x0100
  const TRAP_MCE: uint32 := 0x0200
  const TRAP_DSI: uint32 := 0x0300
  const TRAP_DSEGI: uint32 := 0x0380
  const TRAP_ISI: uint32 := 0x0400
  const TRAP_ISEGI: uint32 := 0x0480
  const TRAP_EXTERN: uint32 := 0x0500
  const TRAP_ALIGN: uint32 := 0x0600
  const TRAP_PROG: uint32 := 0x0700
  const TRAP_FPU: uint32 := 0x0800
  const TRAP_DEC: uint32 := 0x0900
  const TRAP_RESERVEDA: uint32 := 0x0a00
  const TRAP_RESERVEDB: uint32 := 0x0b00
  const TRAP_SYSCALL: uint32 := 0x0c00
  const TRAP_TRACEI: uint32 := 0x0d00
  const TRAP_FPA: uint32 := 0x0e00
  const TRAP_PMI: uint32 := 0x0f00
  const TRAP_APU: uint32 := 0x0f20
  const TRAP_PIT: uint32 := 0x1000
  const TRAP_FIT: uint32 := 0x1010
  const TRAP_WATCHDOG: uint32 := 0x1020
  const TRAP_DTBL: uint32 := 0x1100
  const TRAP_ITBL: uint32 := 0x1200
  const TRAP_DEBUG: uint32 := 0x2000

  /** Every vector the header names, in header order. */
  function TrapVectors(): seq<uint32>
  {
    [TRAP_RESET, TRAP_MCE, TRAP_DSI, TRAP_DSEGI, TRAP_ISI, TRAP_ISEGI,
     TRAP_EXTERN, TRAP_ALIGN, TRAP_PROG, TRAP_FPU, TRAP_DEC, TRAP_RESERVEDA,
     TRAP_RESERVEDB, TRAP_SYSCALL, TRAP_TRACEI, TRAP_FPA, TRAP_PMI, TRAP_APU,
     TRAP_PIT, TRAP_FIT, TRAP_WATCHDOG, TRAP_DTBL, TRAP_ITBL, TRAP_DEBUG]
  }

  // MSR bits.
  const MSR_TRACE_ENABLE: bv32 := 0x0000_0400
  const EXC_FPE: bv32 := 0x0010_0000
  const EXC_ILLEGAL: bv32 := 0x0008_0000
  const EXC_PRIV: bv32 := 0x0004_0000
  const EXC_TRAP: bv32 := 0x0002_0000

  // Debugger message flags.
  const DM_FLAGS_TASK_TERMINATED: bv32 := 0x0000_0001
  const DM_FLAGS_TASK_ATTACHED: bv32 := 0x0000_0002
  const DM_FLAGS_TASK_INTERRUPTED: bv32 := 0x0000_0004
  const DM_FLAGS_TASK_OPENLIB: bv32 := 0x0000_0008
  const DM_FLAGS_TASK_CLOSELIB: bv32 := 0x0000_0010

  function DmFlags(): seq<bv32>
  {
    [DM_FLAGS_TASK_TERMINATED, DM_FLAGS_TASK_ATTACHED, DM_FLAGS_TASK_INTERRUPTED,
     DM_FLAGS_TASK_OPENLIB, DM_FLAGS_TASK_CLOSELIB]
  }

  function ExcBits(): seq<bv32>
  {
    [EXC_FPE, EXC_ILLEGAL, EXC_PRIV, EXC_TRAP]
  }

  /** Exactly one bit of `x` is set. */
  predicate SingleBit(x: bv32)
  {
    x != 0 && x & (x - 1) == 0
  }

  /** The flag words in `flags` are single bits and no two share a bit, so
      testing `f & g` for one flag never fires on another. */
  predicate DisjointSingleBits(flags: seq<bv32>)
  {
    (forall i :: 0 <= i < |flags| ==> SingleBit(flags[i])) &&
    (forall i, j :: 0 <= i < |flags| && 0 <= j < |flags| && i != j ==> flags[i] & flags[j] == 0)
  }

  lemma DmFlagsAreDisjointBits()
    ensures DisjointSingleBits(DmFlags())
  {
  }

  lemma ExcBitsAreDisjointBits()
    ensures DisjointSingleBits(ExcBits())
  {
  }

  /** The vector constants are pairwise distinct, so each case label of the
      classifier's switch selects one vector only. */
  lemma TrapVectorsDistinct()
    ensures forall i, j :: 0 <= i < j < |TrapVectors()| ==> TrapVectors()[i] != TrapVectors()[j]
  {
  }

  // GDB's portable signal numbers (enum gdb_signal) that this back end uses.
  const GDB_SIGNAL_0: int := 0
  const GDB_SIGNAL_INT: int := 2
  const GDB_SIGNAL_QUIT: int := 3
  const GDB_SIGNAL_ILL: int := 4
  const GDB_SIGNAL_TRAP: int := 5
  const GDB_SIGNAL_FPE: int := 8
  const GDB_SIGNAL_BUS: int := 10
  const GDB_SIGNAL_SEGV: int := 11
  const GDB_SIGNAL_ALRM: int := 14
  const GDB_SIGNAL_CHLD: int := 20

  /** The "no signal" result of the classifier, as the `uint32` signal field
      stores it, and the informational sentinel the wait loop tests for: the
      same bit pattern. */
  const SIGNAL_NONE: uint32 := 0xFFFF_FFFF

  lemma MinusOneIsSentinel()
    ensures ToUint32(-1) == SIGNAL_NONE
  {
  }

  /** One entry of the vector register map: `count` consecutive registers
      starting at `regnum`, each `size` bytes wide. */
  datatype RegMapEntry = RegMapEntry(count: nat, regnum: int, size: nat)

  /** The vector register map: VSCR (one 16-byte slot), VR0..VR31 (32 slots
      of 16 bytes), VRSAVE (one 4-byte slot), laid out from `context.vscr`. */
  function VrRegMap(vscrRegnum: int, vr0Regnum: int, vrsaveRegnum: int): seq<RegMapEntry>
  {
    [RegMapEntry(1, vscrRegnum, 16), RegMapEntry(32, vr0Regnum, 16), RegMapEntry(1, vrsaveRegnum, 4)]
  }

  /** Bytes covered by a register map. */
  function RegMapSize(m: seq<RegMapEntry>): nat
  {
    if m == [] then 0 else m[0].count * m[0].size + RegMapSize(m[1..])
  }

  /** The declared block size is exactly the sum of the widths in the map. */
  lemma VrRegSetSizeMatchesMap(vscrRegnum: int, vr0Regnum: int, vrsaveRegnum: int)
    ensures RegMapSize(VrRegMap(vscrRegnum, vr0Regnum, vrsaveRegnum)) == PPC_AMIGAOS_SIZEOF_VRREGSET
  {
    var m := VrRegMap(vscrRegnum, vr0Regnum, vrsaveRegnum);
    assert RegMapSize(m[2..]) == 4 by {
      assert m[2..][1..] == [];
    }
    assert m[1..][1..] == m[2..];
  }
}
