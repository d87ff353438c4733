# AmigaOS PowerPC debugger back end, modelled in Dafny

This project models the core of GDB's native target for AmigaOS 4 on PowerPC, and the AmigaOS back end of libiberty's process-execution interface.

**Trap classification.** `trap_to_signal` turns the interrupt vector and MSR reason bits of a kernel exception context into a GDB signal. It returns -1 for vectors it has no case for (`TrapClassifier`).

**Event path** (`DebugTarget`). It covers:
- the fixed pool of 20 debugger messages, and the seeding loop that fills it;
- `alloc_message` and `free_message`;
- the kernel debug hook (`amigaos_debug_callback`), which stamps a message, fills it and posts it on the debugger's port;
- the `wait` method. At each wake-up it tests CTRL_D before CTRL_C before the port, drains the port and turns the first signal-carrying message (or the death message) into a wait status. Otherwise it waits again.

Each wake-up carries the hook calls and the process death that arrived before it, in order. They are delivered to the port before the wake-up's break signals are tested, so a message posted while the debugger waits is seen on a later round.

The pool, the port and the message storage are the fields of a class. Its invariant says every slot is either free or on the port, exactly once.

**Register fetch** (`RegisterFetch`). `fetch_registers` decides which field of the exception context each register number is supplied from. The layout of the 532-byte vector block is modelled too.

**Memory transfer** (`MemoryTransfer`). `xfer_partial` copies bytes with the MMU protection of the range relaxed to read-write and then restored. A write also clears the instruction cache. Memory at address 0, library lists and unknown objects are refused or delegated.

**Section relocation** (`SectionRelocation`). `ppc_amigaos_relocate_sections` computes per-section offsets, or sets section addresses, from the addresses the ELF loader reports. A section has its link-time `vma` and its current displacement: its objfile's offset, or for an executable's section the distance its entry was moved. Its current address is their sum. The offset is taken against the current address, while `objfile_relocate` adds the new offset to the `vma`. So a section placed a second time lands at its loaded address minus the old offset (`RelocatedPlacement`). The executable branch moves only the sections the loader placed; the others stay where they are.

**Single-stepping** (`PpcSingleStep`). `branch_dest` decodes PowerPC branches. `ppc_amigaos_software_single_step` derives the next-PC candidates from it.

**Child processes** (`PexAmiga`). It covers:
- `pex_init`'s flag masking;
- `pex_amiga_exec_child`'s two-pass construction of the quoted and escaped AmigaDOS command line in a `len + 1` buffer;
- its recording of `rc << 8` in the status array;
- `pex_amiga_wait`.

C integer behaviour is written out:
- a CORE_ADDR is an integer modulo 2^64 (`NatDefs.ToCoreAddr`);
- instruction words are signed 32-bit values, with arithmetic right shifts as floor division and left shifts wrapping (`PpcSingleStep.ToInt32`);
- storing into the `uint32` signal field reduces modulo 2^32 (`NatDefs.ToUint32`).

The model keeps several behaviours of the code as they are:
- A single floating-point register number 32..64 reads `fpr[regno]`, not `fpr[regno - 32]`.
- Fetching all registers supplies `gpr[0..30]` and `fpr[0..30]`, each under register number -1.
- An unknown vector's -1 is the same word as the "informational" sentinel, so such an exception is drained silently.
- An already-quoted argument is recognised by its first character alone.

## Model

| member | source | states |
|---|---|---|
| NatDefs.ToUint32 | gdb/ppc-amigaos-nat.h:67 | storing an `int` in the `uint32` signal field keeps its value modulo 2^32 |
| NatDefs.ToCoreAddr | gdb/ppc-amigaos-tdep.c:52-54 | converting to CORE_ADDR yields the value modulo 2^64 |
| NatDefs.MinusOneIsSentinel | gdb/ppc-amigaos-nat.c:467 | the classifier's -1 stored in the `signal` field is 0xFFFFFFFF, the word the wait loop tests as "no signal" |
| NatDefs.DmFlagsAreDisjointBits | gdb/ppc-amigaos-nat.h:72-76 | every DM_FLAGS_* constant is a single bit and no two share a bit |
| NatDefs.ExcBitsAreDisjointBits | gdb/ppc-amigaos-nat.h:55-58 | every EXC_* reason bit is a single bit and no two share a bit |
| NatDefs.TrapVectorsDistinct | gdb/ppc-amigaos-nat.h:28-51 | the 24 interrupt vector constants are pairwise distinct |
| NatDefs.VrRegSetSizeMatchesMap | gdb/ppc-amigaos-nat.c:49-55 | the widths of the vector register map add up to PPC_AMIGAOS_SIZEOF_VRREGSET (532) |
| TrapClassifier.ProgramCheckSignal | gdb/ppc-amigaos-nat.c:1009-1025 | a program check gives FPE iff EXC_FPE is set; ILL iff EXC_FPE is clear and EXC_ILLEGAL or EXC_PRIV is set; TRAP iff none of the three is set |
| TrapClassifier.TrapToSignal | gdb/ppc-amigaos-nat.c:983-1049 | the result is one of the ten values the classifier can return; a NULL context or the terminated flag gives QUIT; the result is -1 exactly when the vector has no case |
| TrapClassifier.ClassifierFollowsTable | gdb/ppc-amigaos-nat.c:996-1044 | the classifier agrees with the vector-to-signal table for every handled vector whatever the MSR; the table keys plus TRAP_PROG are exactly the handled vectors |
| TrapClassifier.UnhandledHeaderVectors | gdb/ppc-amigaos-nat.c:1045-1047 | exactly eleven header vectors fall to the default case and yield -1: reset, the two segment faults, performance monitor, APU, the three timers, the two TLB errors and debug |
| DebugTarget.StatusFor | gdb/ppc-amigaos-nat.c:498-535 | each signal gets its table status: CHLD signalled(0), QUIT signalled(QUIT), TRAP stopped(TRAP), SEGV, BUS, INT, FPE, ILL and ALRM stopped(0); any other signal leaves the status unset; a status is set iff the signal is a classifier result, and never exited |
| DebugTarget.Drain | gdb/ppc-amigaos-nat.c:448-542 | a drain that ends the wait has taken between 1 and all of the port's messages |
| DebugTarget.Arrive | gdb/ppc-amigaos-nat.c:886-981 | one hook call or process death keeps the pool invariant and only appends to the port: a death message with the pool unchanged, or the head slot of the free list holding the event's signal; events that post nothing leave the port as it was |
| DebugTarget.ArriveAll | gdb/ppc-amigaos-nat.c:886-981 | the arrivals before a wake-up keep the pool invariant and only append to the port; delivery stops only when a post finds all 20 slots in flight |
| DebugTarget.WaitSpec | gdb/ppc-amigaos-nat.c:416-546 | each round of the wait keeps the pool invariant; a returned status is for the ptid given and is set; the process is suspended only when the wait returns stopped(TRAP) |
| DebugTarget.DeathKeepsInvariant | gdb/ppc-amigaos-nat.c:807-817 | appending the death message keeps the pool invariant |
| DebugTarget.DrainKeepsInvariant | gdb/ppc-amigaos-nat.c:448-492 | consuming any number of the port's messages and freeing their slots keeps the pool invariant |
| DebugTarget.LateExceptionIsReported | gdb/ppc-amigaos-nat.c:416-546 | with the port idle, a task event arriving during one wait round and a classified exception during the next, the wait returns that exception's status |
| DebugTarget.InformationalWakeupPasses | gdb/ppc-amigaos-nat.c:448-546 | a round whose only arrival is a task or library event drains it silently and leaves the port idle, the same slots free, and the rest of the wait unchanged |
| DebugTarget.ExceptionWakeupIsReported | gdb/ppc-amigaos-nat.c:448-540 | a round whose only arrival is a classified exception of the observed process returns that exception's status |
| DebugTarget.NatTarget.constructor | gdb/ppc-amigaos-nat.c:352-357 | after the seeding loop the free list holds all 20 slots, last slot first, with the port empty and the pool invariant established |
| DebugTarget.NatTarget.AllocMessage | gdb/ppc-amigaos-nat.c:112-124 | the head of the free list is removed and returned, and its header is stamped (NT_MESSAGE, no name, no reply port, length 36, the process) |
| DebugTarget.NatTarget.FreeMessage | gdb/ppc-amigaos-nat.c:133-140 | a slot goes to the tail of the free list; NULL leaves everything unchanged |
| DebugTarget.NatTarget.Observe | gdb/ppc-amigaos-nat.c:811 | the observed process becomes the one create_inferior started; nothing else changes |
| DebugTarget.NatTarget.DeliverDeathMessage | gdb/ppc-amigaos-nat.c:807-817 | the death message armed at process creation is appended to the port, keeping the pool invariant |
| DebugTarget.NatTarget.DebugCallback | gdb/ppc-amigaos-nat.c:886-981 | events of other tasks and shared-object or unknown events change nothing; otherwise the head slot is filled with the event's flags and signal and posted at the tail of the port; the result is 1 (suspend) exactly for an exception of the observed task; the pool invariant is kept |
| DebugTarget.NatTarget.TakeMessage | gdb/ppc-amigaos-nat.c:448-492 | the oldest message leaves the port; a pool slot returns to the tail of the free list; the result is the status the message ends the wait with, if any |
| DebugTarget.NatTarget.DrainPort | gdb/ppc-amigaos-nat.c:448-542 | the inner loop computes `Drain` of the old port; exactly the consumed messages leave the port and their slots rejoin the pool in port order |
| DebugTarget.NatTarget.Wait | gdb/ppc-amigaos-nat.c:416-546 | the wait computes `WaitSpec`: its outcome, the new port and pool after every round's arrivals and drains, and the suspension of the process on CTRL_C; a MinusOne ptid is replaced by the observed process |
| DebugTarget.NatTarget.DeliverArrivals | gdb/ppc-amigaos-nat.c:886-981 | delivering a wake-up's arrivals one by one computes `ArriveAll` on the state and keeps the pool invariant |
| DebugTarget.NatTarget.Receive | gdb/ppc-amigaos-nat.c:886-981 | one arrival computes `Arrive` on the state: a death message is posted, or the hook runs |
| DebugTarget.PostKeepsInvariant | gdb/ppc-amigaos-nat.c:906-960 | posting a freshly allocated slot keeps every slot free-or-in-flight exactly once, and overwrites no message in flight |
| DebugTarget.TakeKeepsInvariant | gdb/ppc-amigaos-nat.c:448-492 | taking the port's head and freeing its slot keeps the pool invariant |
| DebugTarget.NoDoubleIssue | gdb/ppc-amigaos-nat.c:115 | the slot alloc_message hands out is neither in flight nor elsewhere in the free list |
| DebugTarget.PoolAccounting | gdb/ppc-amigaos-nat.c:94 | free slots plus in-flight slots always number MAX_DEBUG_MESSAGES |
| DebugTarget.SeededPoolIsPermutation | gdb/ppc-amigaos-nat.c:352-357 | the seeded free list holds each of the 20 slots exactly once |
| DebugTarget.DrainStopsAtFirstReport | gdb/ppc-amigaos-nat.c:448-540 | the drain ends the wait iff some message is a death message or carries a signal; it stops at the first such message, everything before it was informational, and the status is that message's |
| DebugTarget.DrainOfWellFormedSetsStatus | gdb/ppc-amigaos-nat.c:498-535 | for messages the hook built, a drain that ends the wait always sets a status |
| DebugTarget.WaitPriority | gdb/ppc-amigaos-nat.c:426-446 | after a round's arrivals, CTRL_D wins over CTRL_C and over a non-empty port (exited 0, nothing taken); CTRL_C alone gives stopped(TRAP), suspends and takes nothing |
| DebugTarget.UnknownVectorDrainedSilently | gdb/ppc-amigaos-nat.c:906-912 | an exception with an unhandled vector stores the sentinel and is drained like an informational message: the wait goes on to the rest of the port |
| DebugTarget.ExceptionAfterTaskEventsIsReported | gdb/ppc-amigaos-nat.c:448-540 | informational messages before a classified exception are drained, and the wait ends with that exception's status after consuming all of them |
| RegisterFetch.FetchOne | gdb/ppc-amigaos-nat.c:584-617 | a single fetch supplies its own number or fails; it fails with an internal error exactly when no case applies; PC comes from `ip`, 0..31 from `gpr[regno]`, AltiVec numbers from the vector block, 32..64 from `fpr[regno]` |
| RegisterFetch.FetchRegisters | gdb/ppc-amigaos-nat.c:561-618 | fetching all registers supplies `gpr[0..30]` and `fpr[0..30]` under number -1, then PC, MSR, CR, LR, CTR, XER, FPSCR, then the vector block iff both vector numbers exist, and never gpr[31] or fpr[31]; any other number gives the single fetch |
| RegisterFetch.FprBranchIndexesPastArray | gdb/ppc-amigaos-nat.c:596-597 | a fetch supplies from `fpr` exactly for the numbers 32..64 that are neither PC nor AltiVec, and then indexes `fpr` with the register number itself, never 0..31 |
| RegisterFetch.VectorCasesShadowedByRegset | gdb/ppc-amigaos-nat.c:592-594 | with VR0 <= VRSAVE, the dedicated VR0 and VRSAVE cases are never reached |
| RegisterFetch.SpecialRegistersAfterRanges | gdb/ppc-amigaos-nat.c:598-617 | past the PC, general, AltiVec and floating ranges, MSR, CR, LR, CTR, XER, FPSCR, VR0 and VRSAVE are matched in source order, each only when no earlier one has the same number, and an unmatched number is an internal error |
| RegisterFetch.RegMapSlot | gdb/ppc-amigaos-nat.c:49-55 | a register's slot in a register map ends within the map's total size and has the width of one of its entries |
| RegisterFetch.VectorBlockLayout | gdb/ppc-amigaos-nat.c:49-55 | for any numbering where VSCR and VRSAVE lie outside VR0..VR31 and differ, VSCR is at offset 0 (16 bytes), VR0+k at 16+16k (16 bytes) and VRSAVE at 528 (4 bytes), all within 532 bytes |
| MemoryTransfer.ReadBytes | gdb/ppc-amigaos-nat.c:650 | the read copy returns `len` bytes, byte i being memory at offset+i |
| MemoryTransfer.WriteBytes | gdb/ppc-amigaos-nat.c:654 | the write copy changes exactly the bytes of the range, to the caller's data |
| MemoryTransfer.SetAttrs | gdb/ppc-amigaos-nat.c:646 | setting attributes changes exactly the range to the given value |
| MemoryTransfer.InferiorMemory.XferPartial | gdb/ppc-amigaos-nat.c:627-695 | address 0 gives E_IO and touches nothing; other memory transfers report `len` bytes, read or write them, log one instruction-cache clear per write, and leave the whole range with the attribute word read at `offset`; libraries give E_IO; other objects go to the target beneath, or E_IO without one |
| MemoryTransfer.SetAttrsOverwrite | gdb/ppc-amigaos-nat.c:646-658 | relaxing and then restoring the range leaves only the restored value |
| MemoryTransfer.ReadAfterWrite | gdb/ppc-amigaos-nat.c:650-654 | reading back a range just written gives the data written |
| MemoryTransfer.WriteLeavesDisjointRange | gdb/ppc-amigaos-nat.c:654 | a write does not change any range disjoint from it |
| MemoryTransfer.RestoreExactIffUniform | gdb/ppc-amigaos-nat.c:645-658 | the protection comes back unchanged iff the whole range shared the attribute word of its first address |
| SectionRelocation.SectionOffset | gdb/ppc-amigaos-nat.c:729-737 | for a placed section the offset added to its current address (`vma` plus the objfile's offset) gives the loaded address modulo 2^64; an unplaced section gets offset 0 |
| SectionRelocation.ExecAddress | gdb/ppc-amigaos-nat.c:748-756 | after the executable branch a placed section is at its loaded address, and an unplaced one, which gets no call, stays at its current address |
| SectionRelocation.SymfileOffsets | gdb/ppc-amigaos-nat.c:718-741 | the offset table has one entry per section, each that section's offset |
| SectionRelocation.ExecSectionAddresses | gdb/ppc-amigaos-nat.c:743-758 | the address each section of the executable has afterwards is its `ExecAddress` |
| SectionRelocation.RelocateSections | gdb/ppc-amigaos-nat.c:704-766 | nothing happens without an ELF handle that opens; otherwise the symbol file is relocated by offsets, else the executable's sections are placed, else nothing happens |
| SectionRelocation.RelocatedPlacement | gdb/ppc-amigaos-nat.c:733-756 | applying the offsets puts a placed section at its loaded address minus its objfile's old offset and an unplaced one back at its `vma`; this agrees with where the executable branch leaves the section exactly when the old offset is 0 |
| PpcSingleStep.ToInt32 | gdb/ppc-amigaos-tdep.c:50 | a wrapped 32-bit value is congruent to the unwrapped one modulo 2^32 |
| PpcSingleStep.ClearLow2 | gdb/ppc-amigaos-tdep.c:69 | `& ~3` gives the largest multiple of 4 not above its argument |
| PpcSingleStep.BranchDest | gdb/ppc-amigaos-tdep.c:34-81 | any opcode other than 16, 18 and 19 gives NO_TARGET (-1) |
| PpcSingleStep.BImmediateIsExtsLI | gdb/ppc-amigaos-tdep.c:50 | the `<< 6 >> 6` pair equals the sign-extended 26-bit field LI followed by 0b00 |
| PpcSingleStep.BcImmediateIsExtsBD | gdb/ppc-amigaos-tdep.c:58 | the `<< 16 >> 16` pair equals the sign-extended 16-bit field BD followed by 0b00 |
| PpcSingleStep.OpcodeSelectsPrimaryOpcode | gdb/ppc-amigaos-tdep.c:103 | the signed `insn >> 26` selects a branch case iff the primary opcode is 16, 18 or 19, and then equals it |
| PpcSingleStep.SignedFieldsMatch | gdb/ppc-amigaos-tdep.c:45-66 | the AA bit and the extended opcode read through the signed word are the ISA's fields |
| PpcSingleStep.BranchDestMatchesIsa | gdb/ppc-amigaos-tdep.c:34-81 | the decoder, given the source's opcode, returns the ISA branch target of b, bc, bclr and bcctr, and NO_TARGET for every other instruction |
| PpcSingleStep.ImmediatesAligned | gdb/ppc-amigaos-tdep.c:50-58 | both branch displacements are multiples of 4 |
| PpcSingleStep.BranchTargetAlignment | gdb/ppc-amigaos-tdep.c:49-75 | absolute and register targets are word-aligned; relative targets have the alignment of the branch |
| PpcSingleStep.SoftwareSingleStep | gdb/ppc-amigaos-tdep.c:84-122 | a non-empty atomic-sequence answer is returned as is; otherwise the result is the fall-through, then the branch target unless it equals the fall-through, with NO_TARGET entries skipped |
| PpcSingleStep.CandidatesShape | gdb/ppc-amigaos-tdep.c:102-117 | below the top of memory there are one or two distinct candidates, the fall-through first, never -1; the target is included iff it exists and differs from the fall-through |
| PpcSingleStep.FallThroughDroppedAtTop | gdb/ppc-amigaos-tdep.c:102-114 | at the last word of memory the fall-through wraps to -1 and is dropped |
| PpcSingleStep.HasSharedAddressSpace | gdb/ppc-amigaos-tdep.c:25-29 | debugger and inferior always share one address space |
| PexAmiga.PexInitFlags | libiberty/pex-amigaos.c:78-84 | PEX_USE_PIPES is cleared and every other flag bit is kept |
| PexAmiga.PexObj.constructor | libiberty/pex-amigaos.c:78-84 | a new object has the masked flags, no children and no statuses |
| PexAmiga.EscapeFromLength | libiberty/pex-amigaos.c:170-181 | the escaped text of an argument is at most its characters plus one escape per `"` or `*`, and those only when the argument is quoted |
| PexAmiga.EncodeArgFits | libiberty/pex-amigaos.c:134-183 | one argument with its separator never exceeds what the first pass counted for it |
| PexAmiga.CommandFitsCount | libiberty/pex-amigaos.c:132-251 | the whole command line is no longer than the first pass's `len`, so with its NUL it fits the `len + 1` buffer |
| PexAmiga.VerbatimUnlessQuoting | libiberty/pex-amigaos.c:219-245 | the characters of an unquoted argument are written unchanged |
| PexAmiga.PlainArgumentUnchanged | libiberty/pex-amigaos.c:172-238 | an argument without white space and without a leading quote appears unchanged in the command line |
| PexAmiga.UnescapeEscapeFrom | libiberty/pex-amigaos.c:219-245 | without backslashes, reading back the escapes of a quoted argument gives the argument |
| PexAmiga.QuotedArgumentRoundTrip | libiberty/pex-amigaos.c:193-248 | an argument with white space and no leading quote is wrapped in `"`, and without backslashes what lies between the quotes reads back as the argument |
| PexAmiga.AlreadyQuotedKeepsLeadingQuote | libiberty/pex-amigaos.c:146-149 | an already-quoted argument gets no added quotes and its leading `"` is not escaped |
| PexAmiga.BackslashSuppressesEscape | libiberty/pex-amigaos.c:231-244 | an unescaped backslash suppresses the escape of the next character, and the flag is clear after it |
| PexAmiga.EncodeArgStart | libiberty/pex-amigaos.c:193-215 | an encoded argument never starts with a space |
| PexAmiga.NoLeadingSpace | libiberty/pex-amigaos.c:211-212 | the command line never starts with a space |
| PexAmiga.LeadingEmptyArgumentVanishes | libiberty/pex-amigaos.c:211-212 | a leading empty argument writes nothing, not even a separator |
| PexAmiga.PlainArgumentsJoinedBySpaces | libiberty/pex-amigaos.c:211-238 | plain non-empty arguments are joined by single spaces |
| PexAmiga.ScanForSpace | libiberty/pex-amigaos.c:140-163 | the scan finds a leading quote, or else whether the argument contains C-locale white space |
| PexAmiga.CountEscapables | libiberty/pex-amigaos.c:174-181 | the loop counts the `"` and `*` characters of the argument |
| PexAmiga.CountLength | libiberty/pex-amigaos.c:132-183 | the first pass computes `CountedLength` |
| PexAmiga.WriteChar | libiberty/pex-amigaos.c:219-244 | one character step writes the escape when one is due, then the character, and updates the `escaped` flag |
| PexAmiga.WriteArg | libiberty/pex-amigaos.c:189-248 | writing one argument appends the separator (when the write pointer has moved) and the encoded argument, within the buffer |
| PexAmiga.CommandSnoc | libiberty/pex-amigaos.c:189-248 | one more argument extends the command line by a separator, when something was written, and its encoding |
| PexAmiga.ArgumentFits | libiberty/pex-amigaos.c:132-248 | each argument written after the earlier ones stays within what the first pass counted up to it |
| PexAmiga.WriteArguments | libiberty/pex-amigaos.c:187-249 | the second pass writes exactly the command line, within the counted length |
| PexAmiga.BuildCommandLine | libiberty/pex-amigaos.c:132-251 | the buffer has `len + 1` characters and holds the command line followed by NUL |
| PexAmiga.StatusWord | libiberty/pex-amigaos.c:269 | `rc << 8` is congruent to 256 * rc modulo 2^32, and equal to it when no bits are shifted out |
| PexAmiga.ExitCodeRecovered | libiberty/pex-amigaos.c:264-269 | an exit code 0..255 comes back from the status word with a zero low byte and the code in the next byte |
| PexAmiga.PexObj.ExecChild | libiberty/pex-amigaos.c:118-273 | the command passed to `system` is the built command line; on -1 the error is reported and no status stored; otherwise the status array becomes the earlier entries plus `rc << 8` and `count` is returned |
| PexAmiga.PexObj.Wait | libiberty/pex-amigaos.c:310-325 | the stored status of the child is returned, times are zeroed when asked for, and the result is 0 |

## Left out

- Operating-system services are represented by the state they change: the message port, the free list, memory and MMU attributes, and the instruction-cache log. This covers every exec, debug, MMU, ELF and DOS library call, `SuperState`/`UserState` and `CacheClearE`.
- Logging (`DebugPrintF`, `printf`) is not modelled.
- Concurrency: the hook runs on the inferior's own context while the debugger waits. The model runs them one after the other.
- Resource handling is not modelled beyond the seeding loop. This covers the constructor's library, interface, port, hook and storage acquisition with its unwinding, and the destructor.
- `create_inferior` is left out. Its two effects on the event path are modelled by `Observe` and `DeliverDeathMessage`.
- These operations are left out because they do no modelled computation: `resume` (restarts the task), `attach` and `store_registers` (print only), `amigaos_debug_suspend`, `_initialize_ppcamigaos_nat` and `ppc_amigaos_init_abi`.
- The blocking `Wait` for signals is modelled by a finite sequence of wake-ups. Running out of wake-ups is `Blocked`, where the code waits forever.
- Hook calls and the process death are delivered in order before the wake-up that follows them. A message posted while the drain loop runs is seen on the next round, not in the same drain.
- DebugTarget.WaitSpec: the hook finding the free list empty ends the model's wait with `PoolExhausted`. The code dereferences NULL there.
- DebugTarget.Arrive: the hook's return value, which makes the kernel suspend the task, is not tracked on the wait path.
- DebugTarget.NatTarget.AllocMessage: requires a free slot. The code takes the head of an empty list and dereferences NULL, so pool exhaustion is not modelled.
- DebugTarget.NatTarget.DebugCallback: requires a free slot when it posts, for the same reason.
- GDB's signal numbers come from gdb/signals.def, which is not part of this model. They are written as constants.
- RegisterFetch.FetchOne: the AltiVec test is the range VR0..VRSAVE with both numbers present. `altivec_register_p` in gdb/rs6000-tdep.c is not part of this model.
- The register cache, `ReadTaskContext` and the architecture's register numbers are inputs. A fetch is described by the list of supplies it makes.
- MemoryTransfer.InferiorMemory.XferPartial: requires the whole range to be mapped, because MMU faults are not modelled.
- MemoryTransfer.InferiorMemory.XferPartial: the value of MEMATTRF_READ_WRITE is a parameter, because the exec headers are not part of this model.
- MemoryTransfer.InferiorMemory.XferPartial: the 64-bit wrap of `offset + len` is not modelled.
- SectionRelocation.RelocateSections: the ELF lookups are a map from section name to loaded address. The ELF handle checks are boolean inputs. `objfile_relocate` is represented by the offsets passed to it. `exec_set_section_address` is represented by the address each section has afterwards: the loaded one where it is called, the current one where it is not.
- SectionRelocation.SymfileOffsets: the offset table is indexed by position in the section list. Objfile slots without a BFD section, which the loop skips and leaves at 0, are not represented.
- PpcSingleStep.SoftwareSingleStep: the PC, the instruction word read from memory, LR, CTR and the answer of `ppc_deal_with_atomic_sequence` are inputs. The reset of `errno` is not modelled.
- PexAmiga.PexObj.ExecChild: `system`'s result and `errno` are inputs. `xmalloc` and realloc failures are not modelled.
- PexAmiga.PexObj.ExecChild: requires a stored status for each of the `count` earlier children. Otherwise the resized array would hold indeterminate entries.
- PexAmiga.Command: arguments are character sequences. A NUL inside an argument, where `strlen` would stop, is not modelled.
- PexAmiga.CountLength: the `int` overflow of `len` on huge command lines is not modelled.
- PexAmiga.StatusWord: for results whose shift overflows (undefined behaviour in C) it wraps.
- The open, close and `fdopen` wrappers of the process-execution interface are not modelled. They are single calls into the C library.
- `pex_init_common`, in libiberty/pex-common.c, is not part of this model. It is the code that advances `count` after each child.
- gnulib/import/pipe.c is not modelled. It only plumbs I/O.
