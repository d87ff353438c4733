// The trap classifier: maps the interrupt vector and MSR reason bits of a
// captured exception context to the GDB signal the wait loop reports.
module TrapClassifier {
  import opened NatDefs

  /** The part of the kernel's exception context the classifier looks at:
      the interrupt vector (`Traptype`) and the machine state register. */
  datatype ExceptionContext = ExceptionContext(traptype: uint32, msr: bv32)

  /** Every value the classifier can return; -1 means "no signal". */
  function ClassifierResults(): set<int>
  {
    {GDB_SIGNAL_QUIT, GDB_SIGNAL_SEGV, GDB_SIGNAL_BUS, GDB_SIGNAL_INT, GDB_SIGNAL_FPE,
     GDB_SIGNAL_ALRM, GDB_SIGNAL_ILL, GDB_SIGNAL_CHLD, GDB_SIGNAL_TRAP, -1}
  }

  /** The vectors the classifier has a case for. */
  function HandledVectors(): set<uint32>
  {
    {TRAP_MCE, TRAP_DSI, TRAP_ISI, TRAP_ALIGN, TRAP_EXTERN, TRAP_PROG, TRAP_FPU,
     TRAP_DEC, TRAP_RESERVEDA, TRAP_RESERVEDB, TRAP_SYSCALL, TRAP_TRACEI, TRAP_FPA}
  }

  /** The signal for a program-check exception, decided by the MSR reason
      bits in priority order: floating point, illegal, privileged, else trap. */
  function ProgramCheckSignal(msr: bv32): (r: int)
    ensures r == GDB_SIGNAL_FPE <==> msr & EXC_FPE != 0
    ensures r == GDB_SIGNAL_ILL <==> msr & EXC_FPE == 0 && msr & (EXC_ILLEGAL | EXC_PRIV) != 0
    ensures r == GDB_SIGNAL_TRAP <==> msr & (EXC_FPE | EXC_ILLEGAL | EXC_PRIV) == 0
  {
    if msr & EXC_FPE != 0 then GDB_SIGNAL_FPE
    else if msr & EXC_ILLEGAL != 0 then GDB_SIGNAL_ILL
    else if msr & EXC_PRIV != 0 then GDB_SIGNAL_ILL
    else GDB_SIGNAL_TRAP
  }

  /** trap_to_signal: a missing context or the task-terminated flag gives
      QUIT before the vector is looked at; otherwise the vector decides. */
  function TrapToSignal(context: Option<ExceptionContext>, flags: bv32): (r: int)
    ensures r in ClassifierResults()
    ensures context.None? || flags & DM_FLAGS_TASK_TERMINATED != 0 ==> r == GDB_SIGNAL_QUIT
    ensures r == -1 <==>
      context.Some? && flags & DM_FLAGS_TASK_TERMINATED == 0 && context.value.traptype !in HandledVectors()
  {
    if context.None? || flags & DM_FLAGS_TASK_TERMINATED != 0 then
      GDB_SIGNAL_QUIT
    else
      var t := context.value.traptype;
      if t == TRAP_MCE || t == TRAP_DSI then GDB_SIGNAL_SEGV
      else if t == TRAP_ISI || t == TRAP_ALIGN then GDB_SIGNAL_BUS
      else if t == TRAP_EXTERN then GDB_SIGNAL_INT
      else if t == TRAP_PROG then ProgramCheckSignal(context.value.msr)
      else if t == TRAP_FPU then GDB_SIGNAL_FPE
      else if t == TRAP_DEC then GDB_SIGNAL_ALRM
      else if t == TRAP_RESERVEDA || t == TRAP_RESERVEDB then GDB_SIGNAL_ILL
      else if t == TRAP_SYSCALL then GDB_SIGNAL_CHLD
      else if t == TRAP_TRACEI then GDB_SIGNAL_TRAP
      else if t == TRAP_FPA then GDB_SIGNAL_FPE
      else -1
  }

  /** The vector-to-signal table written out as data, one entry per handled
      vector other than the program check (whose signal depends on the MSR). */
  function VectorTable(): map<uint32, int>
  {
    map[TRAP_MCE := GDB_SIGNAL_SEGV, TRAP_DSI := GDB_SIGNAL_SEGV,
        TRAP_ISI := GDB_SIGNAL_BUS, TRAP_ALIGN := GDB_SIGNAL_BUS,
        TRAP_EXTERN := GDB_SIGNAL_INT,
        TRAP_FPU := GDB_SIGNAL_FPE, TRAP_FPA := GDB_SIGNAL_FPE,
        TRAP_DEC := GDB_SIGNAL_ALRM,
        TRAP_RESERVEDA := GDB_SIGNAL_ILL, TRAP_RESERVEDB := GDB_SIGNAL_ILL,
        TRAP_SYSCALL := GDB_SIGNAL_CHLD,
        TRAP_TRACEI := GDB_SIGNAL_TRAP]
  }

  /** Every entry of the table is what the classifier returns for that
      vector, whatever the MSR, and the table plus the program check covers
      exactly the handled vectors. */
  lemma ClassifierFollowsTable(msr: bv32, flags: bv32)
    requires flags & DM_FLAGS_TASK_TERMINATED == 0
    ensures forall v :: v in VectorTable() ==>
      TrapToSignal(Some(ExceptionContext(v, msr)), flags) == VectorTable()[v]
    ensures TrapToSignal(Some(ExceptionContext(TRAP_PROG, msr)), flags) == ProgramCheckSignal(msr)
    ensures VectorTable().Keys + {TRAP_PROG} == HandledVectors()
  {
    TableKeys();
    ProgramCheckEntry(msr, flags);
    forall v | v in VectorTable()
      ensures TrapToSignal(Some(ExceptionContext(v, msr)), flags) == VectorTable()[v]
    {
      TableEntry(v, msr, flags);
    }
  }

  /** The program check is the one handled vector decided by the MSR. */
  lemma ProgramCheckEntry(msr: bv32, flags: bv32)
    requires flags & DM_FLAGS_TASK_TERMINATED == 0
    ensures TrapToSignal(Some(ExceptionContext(TRAP_PROG, msr)), flags) == ProgramCheckSignal(msr)
  {
  }

  /** One entry of the table agrees with the classifier. */
  lemma TableEntry(v: uint32, msr: bv32, flags: bv32)
    requires flags & DM_FLAGS_TASK_TERMINATED == 0 && v in VectorTable()
    ensures TrapToSignal(Some(ExceptionContext(v, msr)), flags) == VectorTable()[v]
  {
  }

  /** The table's keys are the handled vectors other than the program check. */
  lemma TableKeys()
    ensures VectorTable().Keys + {TRAP_PROG} == HandledVectors()
  {
  }

  /** Of the vectors the header names, exactly these eleven have no case in
      the classifier and so yield -1: reset, data and instruction segment,
      performance monitor, APU, the three timers, the two TLB errors, debug. */
  lemma UnhandledHeaderVectors(msr: bv32)
    ensures (set v | v in TrapVectors()) - HandledVectors() ==
      {TRAP_RESET, TRAP_DSEGI, TRAP_ISEGI, TRAP_PMI, TRAP_APU, TRAP_PIT,
       TRAP_FIT, TRAP_WATCHDOG, TRAP_DTBL, TRAP_ITBL, TRAP_DEBUG}
    ensures forall v :: v in (set v | v in TrapVectors()) - HandledVectors() ==>
      TrapToSignal(Some(ExceptionContext(v, msr)), 0) == -1
  {
    HeaderVectorSet();
    HeaderMinusHandled();
  }

  /** The header's vectors as a set, written out. */
  lemma HeaderVectorSet()
    ensures (set v | v in TrapVectors()) == HeaderVectors()
  {
  }

  /** Taking away the handled vectors leaves the eleven without a case. */
  lemma HeaderMinusHandled()
    ensures HeaderVectors() - HandledVectors() ==
      {TRAP_RESET, TRAP_DSEGI, TRAP_ISEGI, TRAP_PMI, TRAP_APU, TRAP_PIT,
       TRAP_FIT, TRAP_WATCHDOG, TRAP_DTBL, TRAP_ITBL, TRAP_DEBUG}
  {
  }

  function HeaderVectors(): set<uint32>
  {
    {TRAP_RESET, TRAP_MCE, TRAP_DSI, TRAP_DSEGI, TRAP_ISI, TRAP_ISEGI,
     TRAP_EXTERN, TRAP_ALIGN, TRAP_PROG, TRAP_FPU, TRAP_DEC, TRAP_RESERVEDA,
     TRAP_RESERVEDB, TRAP_SYSCALL, TRAP_TRACEI, TRAP_FPA, TRAP_PMI, TRAP_APU,
     TRAP_PIT, TRAP_FIT, TRAP_WATCHDOG, TRAP_DTBL, TRAP_ITBL, TRAP_DEBUG}
  }
}
