# Verified model of AttoRV32

AttoRV32 is a small multi-cycle RV32IMC core written in Verilog (`rtl/attorv32.v`), with a debug UART
(`rtl/dbg_uart.v`) and a GDB stub in C (`sw/gdb_stub.c`) that together make a debugger without debug
hardware. This project models the three in Dafny, clock by clock and byte by byte, and proves what they
are for:

- **The core refines the ISA.** `Machine` and `Isa` give a one-step semantics of RV32IMC with the core's
  machine-mode CSRs, over byte-addressed memory, written from the ISA manual. `Core` is the clocked
  design, `AttoCore` the same as a class with one method per `always` block, `Bus` the memory it talks
  to. `CoreRefinesIsa` says that in every run from reset, under any wait states and with trap requests
  at any clock, the registers, PC, memory and CSRs found in S_EXECUTE are those of the ISA's run; its
  conditions speak of the bus, of the ISA's run and, where a trap cuts S_WAIT short, of what the core
  shows in that clock. `ExecuteReached` says that every instruction ends, and `PowerOn` carries the
  first over to the class. Below that are the fetch unit (`FetchUnit`: cache, straddling instructions,
  skipped fetches, RVC), the byte lanes, and the iterative units, each equal to its mathematical
  function at every word width: the radix-2 and radix-4 Booth multipliers, the restoring divider, the
  serial and barrel shifters.
- **The ISA's side is held down on its own.** What `Isa` and `Machine` share with the core is stated a
  second time: the decoder against an assembler, both ways (`DecodesAll`, `DecodesOnly`), halfwords,
  loads, sums and the logical operations as numbers (`Bits`, `Loads`), and the register file by its law,
  down to the operand an instruction finds in the core (`LastResultRead`).
- **The stub's patching is exactly undoable.** Any run of inserts, removes, steps and program stores
  leaves memory as the program alone would have left it, overlaid with exactly the used slots; a single
  step by patching leaves exactly one step of the program. After any run the addresses with a breakpoint
  are those the answers say, and the core fetches EBREAK there (`RunArms`). The packet framing and the
  hexadecimal codecs are inverse pairs.
- **The UART's timing is exact.** Auto-baud gives the bit period, the clock tolerance is a condition
  that is both sufficient and necessary, streams arrive in order, the processor reads all of them
  exactly when it reads in time, and a break pulses once.

Several properties hold only under a condition. Those are stated as equivalences: the condition, and
what the code does when it fails.

Where the code and its comments disagree the model follows the code:

- The comment on the Booth unit (`rtl/attorv32.v:334-336`) takes the 33-bit accumulator to be wide
  enough. For MULHU it is not (`MulhuExact`, `MulhuFails`); the low word is right all the same.
- The parallel multiplier gives MULHSU the sign of the wrong operand (`rtl/attorv32.v:458-459`), unlike
  the serial ones and section 7.1 of the ISA (`MulhsuExact`, `MulhsuFails`).
- The divider keeps subtracting when it is done, and a remainder survives that only under a condition
  (`LateExact`, `LateFails`), so the bus must not hold S_WAIT for a division. `Bus.BusOk` lets a bus
  stall only a transaction that is in progress.
- `rtl/attorv32.v:699-702` says that a synchronous trap saves its own PC. It does not when an
  asynchronous trap is accepted with it (`AsyncOnEnvTrap`, `CallLost`). `rtl/attorv32.v:923` says that an
  interrupt can coincide with an instruction that needs S_WAIT; so can an NMI or a debug halt, and then
  S_WAIT is skipped. That does harm under a condition (`SkippedExact`, `LoadLost`).
- `rtl/attorv32.v:657-658` says that a debug halt reads back as cause 3. It does unless an NMI or
  interrupt is accepted in the same clock, or the halt meets a trapping ECALL, which reads back as 11
  (`DebugHaltCause`, `DebugHaltOnEcall`). `Machine.Mcause` follows the code.
- `sw/gdb_stub.c:240-246` and `sw/gdb_stub.c:259-263` access a four-byte instruction as one word, at any
  even address. The core's byte lanes round such an access down (`StoreRoundsDown`), so between two
  words it does not do what the C says (`PlantExact`, `RestoreExact`).
- `rtl/dbg_uart.v:12-14` divides the calibration count by eight. Counting from the clock after the first
  edge makes that a division rounded up (`LockRoundsUp`), which is why eight whole bit periods give the
  bit period itself.
- `sw/gdb_stub.c:271-283` takes the step breakpoints out in the order they went in. When the two overlap
  that does not always restore memory (`PairRestored`, `OverlapCorrupts`).
- `sw/gdb_stub.c:154-157` leaves the characters that do not fit the buffer out of the checksum as well,
  so an overlong packet can be acknowledged in part (`OverlongFrame`).

Conventions: data words and addresses are integers, with wrap-around written out; instruction words are
bit vectors. `hide` statements only keep definitions away from the solver. Word width w is a parameter of
the arithmetic units; the core uses them at 32. The number of address bits is 8 to 16, as in the source.

## Model

| member | source | states |
|---|---|---|
| `Radix2.Multiplier.Clock` | rtl/attorv32.v:431-449 | one clock of the register block is a load or a tick of the value model |
| `Radix2.PartialProduct` | rtl/attorv32.v:425-449 | after k clocks the double register holds multiplicand times the low k multiplier bits, scaled, plus the bits still to come; nothing overflows |
| `Radix2.Duration` | rtl/attorv32.v:429-449 | busy for exactly w clocks, one more when the result has to be negated |
| `Radix2.Correct` | rtl/attorv32.v:425-453 | MUL, MULH, MULHSU and MULHU of section 7.1 for all operands, at the end of exactly the busy time |
| `MulDivSpec.SignedFromMagnitudes` | rtl/attorv32.v:320-323 | multiplying magnitudes and negating the double word when the signs differ gives the asked half of the signed product |
| `Booth.Multiplier.Clock` | rtl/attorv32.v:384-422 | one clock of the Booth register block: load, recode, fixup or negate |
| `Booth.Recoding` | rtl/attorv32.v:358-380 | one recoding keeps the relation between accumulator, shifted-out bits and the signed prefix of the multiplier, and tells exactly when the accumulator has lost a multiple of its modulus |
| `Booth.AccumulatorExact` | rtl/attorv32.v:354-403 | for a multiplicand up to half the word range the accumulator after k recodings is the floor of the product with the signed low 2k bits over 4^k |
| `Booth.AccumulatorModulo` | rtl/attorv32.v:365-403 | for every multiplicand it is that value modulo 2^(w+1-2k) |
| `Booth.AfterFixup` | rtl/attorv32.v:404-417 | the fixup leaves the right low word always, and the right high word exactly when no sum has overflowed |
| `Booth.Duration` | rtl/attorv32.v:382-421 | busy for exactly w/2 + 1 clocks, one more to negate |
| `Booth.Correct` | rtl/attorv32.v:354-422 | MUL, MULH and MULHSU of section 7.1 for all operands, at the end of the busy time |
| `Booth.MulhuExact` | rtl/attorv32.v:365-403 | MULHU is right if and only if no signed prefix of rs2 times rs1 leaves the accumulator |
| `Booth.MulhuFails` | rtl/attorv32.v:365-403 | the largest word times 2 is an input where it is wrong, at every width |
| `Parallel.MeetsSpec` | rtl/attorv32.v:458-466 | the single-cycle multiplier meets section 7.1 for MUL, MULH and MULHU |
| `Parallel.SerialAgrees` | rtl/attorv32.v:425-466 | the serial unit, when it is done, and the single-cycle multiplier give the same word for MUL, MULH and MULHU |
| `Parallel.MulhsuExact` | rtl/attorv32.v:458-466 | MULHSU is right if and only if the two misplaced sign corrections are equal |
| `Parallel.MulhsuFails` | rtl/attorv32.v:458-466 | the largest word times 1 is an input where it is wrong |
| `Divider.Divider.Clock` | rtl/attorv32.v:475-497 | one clock of the divider registers, with the result captured |
| `Divider.AfterSteps` | rtl/attorv32.v:475-494 | after k steps remainder plus quotient times divisor is the dividend, the remainder is below the divisor times 2^(w-k), and mask and divisor are shifted by k; a zero divisor sets every quotient bit |
| `Divider.Correct` | rtl/attorv32.v:470-504 | table 7.1 for DIV, DIVU, REM and REMU at all inputs, zero divisor and overflow included, captured on the last of exactly w busy clocks |
| `Divider.LateExact` | rtl/attorv32.v:482-497 | clocked any number of times more the result survives if and only if it is a quotient, or in each of those clocks the shifted divisor is zero or exceeds the remainder |
| `Divider.LateFails` | rtl/attorv32.v:482-497 | 1 REMU 2 is lost in the first clock too many, at every width above one, and stays lost |
| `Shifter.SerialShifter.Clock` | rtl/attorv32.v:243-261 | one clock of the serial shifter registers |
| `Shifter.Correct` | rtl/attorv32.v:237-264 | SLL, SRL and SRA for every operand and amount, busy for exactly the amount |
| `Shifter.BarrelCorrect` | rtl/attorv32.v:270-296 | reversing, shifting right and reversing again is the shift asked for |
| `Shifter.SerialIsBarrel` | rtl/attorv32.v:237-297 | the two shifters agree on every operation, operand and amount |
| `Decompressor.Faithful` | rtl/attorv32.v:967-1037 | every legal compressed encoding is expanded to a 32-bit instruction of the same meaning, whatever the upper half holds; 32-bit instructions pass through |
| `Decompressor.Quadrant0Meaning` | rtl/attorv32.v:1003-1008 | the quadrant 0 rows against table 16.5 |
| `Decompressor.Quadrant1Meaning` | rtl/attorv32.v:1010-1024 | the quadrant 1 rows against table 16.6 |
| `Decompressor.Quadrant2Meaning` | rtl/attorv32.v:1026-1033 | the quadrant 2 rows against table 16.7 |
| `Decompressor.LegalExactly` | rtl/attorv32.v:998-1036 | a compressed encoding is legal if and only if it is not one of six reserved families and the expander knows it |
| `AttoCore.AttoRV32.Clock` | rtl/attorv32.v:180-948 | one clock of all register blocks together is the next state of the value model |
| `AttoCore.AttoRV32.ClockFront` | rtl/attorv32.v:870-948 | the fetch state machine's register updates |
| `AttoCore.AttoRV32.ClockFetch` | rtl/attorv32.v:880-903 | what S_WAIT_INSTR latches when the word is there |
| `AttoCore.AttoRV32.ClockMepc` | rtl/attorv32.v:697-709 | mepc after the clock |
| `AttoCore.AttoRV32.ClockMcause` | rtl/attorv32.v:712-726 | the lock bit and the cause bits after the clock |
| `AttoCore.AttoRV32.ClockMask` | rtl/attorv32.v:730-737 | the debug-halt mask after the clock |
| `AttoCore.AttoRV32.constructor` | rtl/attorv32.v:871-876 | the state reset leaves, with everything the source leaves unset arbitrary; it meets `FetchUnit.ResetCore`, where all runs start |
| `AttoRun.Run` | rtl/attorv32.v:180-948 | n clocks of the class on a bus and a memory are n steps of the value model |
| `AttoRun.PowerOn` | rtl/attorv32.v:180-948 | n clocks from power-on keep the unit and fetch invariants, and whenever the object is in S_EXECUTE it holds the ISA's state |
| `FetchUnit.InputIsMemory` | rtl/attorv32.v:795-815 | whenever S_WAIT_INSTR has all of an instruction, what it gives the decompressor means the halfwords at the PC, from cache or bus |
| `FetchUnit.CachedAfterFetch` | rtl/attorv32.v:880-894 | the word left in the cache is the one with the last halfword of the instruction |
| `FetchUnit.FirstHalfArrives` | rtl/attorv32.v:890-893 | a straddling long instruction goes back for its second half with the first half in the cache |
| `FetchUnit.AdvanceKeepsInv` | rtl/attorv32.v:911-936 | leaving S_EXECUTE, by jump, trap or skipped fetch, keeps the fetch invariant |
| `FetchUnit.FetchesOnlyMissing` | rtl/attorv32.v:927-933 | leaving S_EXECUTE the core skips the next fetch if and only if the instruction lies in the cached word, and goes for the second half alone if and only if it begins there and ends in the next |
| `FetchUnit.StepKeepsInv` | rtl/attorv32.v:870-948 | every clock keeps the fetch invariant: cache equal to memory after the first fill, second-half fetches only on a hit on a straddling long instruction, skipped fetches only when the cache has all that is needed |
| `FetchUnit.FetchCorrect` | rtl/attorv32.v:792-948 | in every reachable S_EXECUTE the instruction register and the length flag are those of the instruction memory holds at the PC, and of a long instruction the register is the number its four bytes make |
| `FetchUnit.CoherentExactly` | rtl/attorv32.v:882-885 | the cached word stays right over an S_EXECUTE if and only if a store into the last word of its own encoding writes what is there already: stores never invalidate the cache |
| `FetchUnit.StoresElsewhere` | rtl/attorv32.v:843-843 | a store to any other word leaves the cached word as it was |
| `Bits.HalfNumber` | rtl/attorv32.v:811-812 | a halfword is its low byte plus 256 times its high byte |
| `Bits.JoinNumber` | rtl/attorv32.v:811-812 | two halfwords joined are the low one plus 2^16 times the high one |
| `Bits.LongNumber` | rtl/attorv32.v:811-812 | the halfwords at an address and behind it, joined, are the number of the four bytes there |
| `Assembler.DecodesAll` | rtl/attorv32.v:118-157 | every field and immediate lies where figures 2.3 and 2.4 of the ISA put it: decoding what is assembled gives every encodable instruction back |
| `Assembler.DecodesOnly` | rtl/attorv32.v:118-157 | and a word decodes to an instruction other than FENCE only if it is that instruction's encoding, bit for bit |
| `Signals.Inverse` | rtl/attorv32.v:123-157 | every field of the decoded instruction is the field of the encoding it is taken from |
| `Signals.ClassSignals` | rtl/attorv32.v:133-144 | the class wires, which look at bits 6:2 only, single out the instruction kinds |
| `Signals.SystemSignals` | rtl/attorv32.v:153-157 | MRET, WFI, ECALL and EBREAK are told apart |
| `Signals.UnitSignals` | rtl/attorv32.v:228-307 | the unit selects and their operations are those of the instruction |
| `Datapath.Comparisons` | rtl/attorv32.v:218-225 | LT, LTU and EQ from the 33-bit subtractor are signed, unsigned and equality comparison |
| `Datapath.AluCorrect` | rtl/attorv32.v:521-534 | the ALU output of every register and immediate operation that needs no unit |
| `Datapath.BranchTaken` | rtl/attorv32.v:541-547 | the branch predicate is the branch's condition |
| `Datapath.LoadAddress` | rtl/attorv32.v:569-570 | the load and store address is the effective address modulo the address space |
| `Datapath.PcNewCorrect` | rtl/attorv32.v:863-867 | the next PC of every instruction that does not trap |
| `Datapath.ImmediateResult` | rtl/attorv32.v:744-750 | the write-back value of every instruction that is done in S_EXECUTE |
| `Datapath.WaitsExactly` | rtl/attorv32.v:860-860 | the core waits for exactly the instructions whose result is not ready in S_EXECUTE |
| `Machine.ReadWrite` | rtl/attorv32.v:180-186 | a register reads as what was last written to it, x0 excepted, and no other register changes |
| `Machine.ZeroRegister` | rtl/attorv32.v:185-185 | x0 reads as zero |
| `Operands.LastResultRead` | rtl/attorv32.v:180-186 | in every run an operand in S_EXECUTE is the last instruction's result if it names its destination, and what the register held before if not |
| `Bits.LogicExact` | rtl/attorv32.v:521-534 | AND, OR and XOR of words, bit by bit |
| `Bits.SumsWrap` | rtl/attorv32.v:521-534 | ADD and SUB are sum and difference, wrapped at most once |
| `ByteLanes.LoadRoundsDown` | rtl/attorv32.v:757-772 | a load delivers what lies at its address rounded down to the access width, extended as asked |
| `ByteLanes.LoadCorrect` | rtl/attorv32.v:757-772 | an aligned load delivers the bytes at its address |
| `Loads.LoadMeaning` | rtl/attorv32.v:757-772 | LBU, LHU and LW deliver the number of the bytes, LB and LH that number less 2^8 or 2^16 from the middle of its range on |
| `Loads.LoadedMeaning` | rtl/attorv32.v:757-772 | the same of the lanes that the core selects on the bus, at every address and width |
| `Loads.StoreLoad` | rtl/attorv32.v:757-786 | what was stored, cut to the width, is what an unsigned load of that width delivers |
| `ByteLanes.StoreRoundsDown` | rtl/attorv32.v:774-786 | a store at any address writes at the address rounded down to its width, and which of its bytes on which lane |
| `ByteLanes.StoreCorrect` | rtl/attorv32.v:774-786 | an aligned store through lanes and mask writes exactly the bytes the ISA writes |
| `Execution.CsrsCorrect` | rtl/attorv32.v:641-737 | CSRs and trap registers after S_EXECUTE are those of the instruction and the trap accepted with it |
| `Execution.CsrWrites` | rtl/attorv32.v:667-687 | CSRRW, CSRRS, CSRRC and their immediate forms |
| `Bits.CsrBits` | rtl/attorv32.v:667-687 | CSRRS sets and CSRRC clears exactly the bits of the source |
| `Execution.MepcCorrect` | rtl/attorv32.v:697-709 | what mepc is after S_EXECUTE |
| `Execution.TrapSignals` | rtl/attorv32.v:585-600 | traps are accepted exactly when the ISA state and the request lines say so |
| `Execution.FrontCorrect` | rtl/attorv32.v:911-936 | where the state machine goes from S_EXECUTE, skipping S_WAIT for an NMI or debug halt without an interrupt |
| `Completion.UnitsStep` | rtl/attorv32.v:516-516 | work left in the units by an aborted instruction stays bounded in every run |
| `Completion.UnitResult` | rtl/attorv32.v:744-750 | in the last clock of S_WAIT the write-back value is the result of the load, shift, multiplication or division |
| `Completion.StillYields` | rtl/attorv32.v:938-941 | each clock of S_WAIT keeps the promise of the final value |
| `Completion.StillDividing` | rtl/attorv32.v:938-941 | no other unit outlasts a division, so S_WAIT ends in the one clock in which the remainder is right |
| `Completion.WaitStep` | rtl/attorv32.v:938-941 | S_WAIT either goes on or ends in the state the ISA prescribes |
| `CoreRefines.StepSimulates` | rtl/attorv32.v:739-948 | every clock of the core is one ISA instruction or none |
| `CoreRefines.ClockSimulates` | rtl/attorv32.v:739-948 | and keeps the fetch and unit invariants, under conditions on the bus and the ISA's state |
| `CoreRefines.CoreRefinesIsa` | rtl/attorv32.v:739-948 | in every run from reset, whenever S_EXECUTE is reached, PC, registers, memory and CSRs are those of the ISA's run from the first S_EXECUTE on, accepted traps included |
| `CoreRefines.StartsAtZero` | rtl/attorv32.v:871-876 | that run starts at address 0 with the memory and the CSRs of the reset state, interrupts off and no trap being handled |
| `CoreRefines.PlainOutcome` | rtl/attorv32.v:911-936 | without requests each retired instruction is one step of the ISA |
| `CoreProgress.Progress` | rtl/attorv32.v:878-946 | a measure of state, second-half fetch and unit work falls in every clock that does not stall, and never rises |
| `CoreProgress.ExecuteReached` | rtl/attorv32.v:878-946 | from every clock of a run S_EXECUTE is reached again if the bus answers again and again |
| `CoreProgress.RunsExist` | rtl/attorv32.v:871-946 | from every reset state a bus that answers at once gives a run that reaches S_EXECUTE |
| `CoreProgress.NopRun` | rtl/attorv32.v:871-946 | over a memory of C.NOPs that run meets all hypotheses of the refinement for ever: for every m it comes to an S_EXECUTE m instructions on, at address 2m |
| `Bus.StallsFreely` | rtl/attorv32.v:55-58 | the bus protocol admits every pattern of stalls, requests and undefined data |
| `Sleep.Sleeps` | rtl/attorv32.v:602-610 | a WFI without a request changes nothing and leaves the bus quiet |
| `Sleep.WakesUp` | rtl/attorv32.v:602-610 | any request ends it, taken or not: execution goes on behind the WFI, or in the handler with that address saved |
| `TrapCoincidences.AsyncOnEnvTrap` | rtl/attorv32.v:697-721 | an asynchronous trap accepted on a trapping ECALL or EBREAK saves the PC after it |
| `TrapCoincidences.SkipsWait` | rtl/attorv32.v:919-925 | an NMI or debug halt without an interrupt on a waiting instruction skips S_WAIT, leaving in the register what S_EXECUTE wrote |
| `TrapCoincidences.SkippedExact` | rtl/attorv32.v:919-925 | the registers are right all the same if and only if the instruction is a store, has no destination, is a load whose lanes the bus already shows, or finds its result in the unit's register |
| `TrapCoincidences.SameLoad` | rtl/attorv32.v:757-772 | two words on the bus load the same value if and only if they agree on the lanes the address and width select |
| `TrapWitnesses.CallLost` | rtl/attorv32.v:697-709 | a fetched state in which an NMI makes an ECALL's handler return behind it |
| `TrapWitnesses.LoadLost` | rtl/attorv32.v:919-925 | a fetched state in which an NMI leaves the wrong word in the register of a load |
| `CoreTraps.LockStep` | rtl/attorv32.v:711-737 | one clock of the trap lock and the debug mask, and that the mask implies the lock |
| `CoreTraps.LockHolds` | rtl/attorv32.v:728-737 | the mask implies the lock in every reachable state, for any inputs |
| `CoreTraps.NoNesting` | rtl/attorv32.v:585-600 | between two accepted interrupts, NMIs or environment traps an MRET has executed |
| `CoreTraps.NoNestedHalts` | rtl/attorv32.v:592-597 | between two debug halts an MRET has executed |
| `CoreTraps.Bounded` | rtl/attorv32.v:711-737 | each kind of entry is bounded by the MRETs executed plus the one being handled |
| `CoreTraps.DebugHaltCause` | rtl/attorv32.v:651-664 | after a debug halt mcause reads 3 if and only if no NMI or interrupt is accepted with it and it does not meet a trapping ECALL |
| `CoreTraps.DebugHaltOnEcall` | rtl/attorv32.v:711-726 | a debug halt on an ECALL outside any handler reads 11 |
| `Breakpoints.Table.BpInsert` | sw/gdb_stub.c:223-252 | duplicate, first free slot, or full: result, table and memory |
| `BreakpointEffects.InsertExact` | sw/gdb_stub.c:223-252 | of either kind: 0 with nothing changed when the address is set, -1 with nothing changed when it is not and the slots are full, and else 0 with a free slot taken, the old bytes in it and the trap in memory |
| `BreakpointEffects.InsertTraps` | sw/gdb_stub.c:233-248 | after a 0 the core fetches EBREAK at the address |
| `BreakpointEffects.LengthOfInsn` | sw/gdb_stub.c:233-234 | the length planted is that of the instruction there |
| `BreakpointEffects.InsertKeepsUnique` | sw/gdb_stub.c:228-231 | no address gets two slots |
| `Breakpoints.Table.BpRemove` | sw/gdb_stub.c:254-269 | the matching slot's bytes put back and the slot freed, or nothing |
| `BreakpointEffects.RemoveExact` | sw/gdb_stub.c:254-269 | 0 if and only if the address is set; then its slot is freed, its bytes change memory and nothing else does, and the address is set no more |
| `BreakpointEffects.RemovedBytes` | sw/gdb_stub.c:258-265 | the slot's bytes are in memory afterwards |
| `BreakpointEffects.InsertThenRemove` | sw/gdb_stub.c:223-269 | Z0 and z0 at an address that was not set give back memory and the slots in use |
| `Breakpoints.Table.RemoveStepBps` | sw/gdb_stub.c:272-283 | both scratch slots restored, in index order |
| `Breakpoints.Table.PlantTargets` | sw/gdb_stub.c:533-536 | the loop of cmd_step over the successors |
| `Breakpoints.FindUsed` | sw/gdb_stub.c:229-231 | the first used slot for the address, or none |
| `Breakpoints.FindFree` | sw/gdb_stub.c:236-237 | the first free slot, or none |
| `Overlay.PlantKeeps` | sw/gdb_stub.c:236-248 | planting beside the other slots keeps memory equal to the original overlaid with trap code at exactly the used slots, each slot holding what is under it |
| `Overlay.RestoreKeeps` | sw/gdb_stub.c:259-265 | so does putting one slot's bytes back |
| `Overlay.Determined` | sw/gdb_stub.c:214-221 | original and table determine the patched memory |
| `Overlay.NothingPlanted` | sw/gdb_stub.c:214-221 | with no slot in use memory is the original |
| `PatchRuns.InsertKeeps` | sw/gdb_stub.c:542-553 | Z0 keeps the overlay of the user slots |
| `PatchRuns.RemoveKeeps` | sw/gdb_stub.c:567-578 | z0 keeps it |
| `PatchRuns.StepPlants` | sw/gdb_stub.c:531-536 | cmd_step's traps form a second layer over the user's, with one at every successor, also on top of a user breakpoint |
| `PatchRuns.RemoveStepKeeps` | sw/gdb_stub.c:614-618 | re-entry takes exactly that layer away |
| `LanePlanting.PlantExact` | sw/gdb_stub.c:240-246 | planting a four-byte breakpoint through the core's lanes is right if and only if the address is a multiple of four, or the code already reads there as the halves of one |
| `LanePlanting.RestoreExact` | sw/gdb_stub.c:259-263 | putting the word back that way restores memory if and only if the address is a multiple of four or the two halves of its word are equal |
| `PatchRuns.RunIsOverlay` | sw/gdb_stub.c:214-283 | after any run of inserts, removes, steps, re-entries and program stores memory is what the program alone would have left overlaid with the used slots, while a step is under way with the step's traps as a second layer over that, and equal to it once all are removed, in whatever order |
| `BreakpointRuns.RunArms` | sw/gdb_stub.c:214-283 | after any run exactly the addresses are set whose Z0 was answered with 0 and that no z0 has taken out since, and with no step under way the core fetches EBREAK at each |
| `BreakpointRuns.StepArms` | sw/gdb_stub.c:525-540 | after a step command the core fetches EBREAK at each of its targets |
| `PatchRuns.PairRestored` | sw/gdb_stub.c:272-283 | two planted successors are restored if and only if, where they overlap, the first trap's bytes are the program's |
| `PatchRuns.OverlapCorrupts` | sw/gdb_stub.c:272-283 | a memory in which they are not |
| `NextPcs.JumpImmediate` | sw/gdb_stub.c:351-356 | the stub's J immediate is the ISA's |
| `NextPcs.BranchImmediate` | sw/gdb_stub.c:371-376 | the stub's B immediate is the ISA's |
| `NextPcs.CJumpImmediate` | sw/gdb_stub.c:393-402 | the stub's c.j and c.jal offset is the ISA's |
| `NextPcs.CBranchImmediate` | sw/gdb_stub.c:425-431 | the stub's c.beqz and c.bnez offset is the ISA's |
| `NextPcs.ShortFlow` | sw/gdb_stub.c:387-445 | the stub's tests on a compressed instruction hold for exactly the jumps, branches and indirect jumps |
| `NextPcs.LongPossible` | sw/gdb_stub.c:345-385 | for every legal 32-bit encoding the predictor returns the targets its meaning allows |
| `NextPcs.ShortPossible` | sw/gdb_stub.c:387-450 | and for every legal compressed encoding |
| `NextPcs.PredictorCovers` | sw/gdb_stub.c:341-450 | for every register state and every instruction but ECALL, EBREAK and MRET the next PC is among the predicted addresses, modulo the address space |
| `SingleStep.StepUnderPatches` | sw/gdb_stub.c:525-540 | an instruction that keeps clear of patched bytes does under the patches what it does without them |
| `SingleStep.FetchesTrap` | sw/gdb_stub.c:240-246 | what the core fetches at a patched address is a breakpoint instruction |
| `SingleStep.StepTransparent` | sw/gdb_stub.c:525-540 | plant, run one instruction, trap, remove: saved PC, registers and memory are those of one step of the unpatched program |
| `Commands.Stub.SetPc` | sw/gdb_stub.c:516-522 | the address of a resume packet becomes the saved PC, and no address leaves it |
| `Commands.Stub.Step` | sw/gdb_stub.c:525-540 | the command takes the packet's address and plants traps at the predicted successors of the saved PC |
| `Commands.StepCovers` | sw/gdb_stub.c:525-540 | with the debuggee's registers in the frame, the next PC of the instruction at the saved PC is among the command's targets |
| `Commands.ResumeExact` | sw/gdb_stub.c:516-529 | the address written in a resume packet is where it resumes; without one the saved PC stays |
| `Commands.Stub.Reenter` | sw/gdb_stub.c:611-618 | re-entry removes them if a step was under way |
| `Hex.RoundTrip` | sw/gdb_stub.c:91-110 | decoding undoes encoding for every byte sequence, whatever follows |
| `Hex.MemToHex` | sw/gdb_stub.c:91-98 | the loop writes the encoding to the front of the buffer and nothing else |
| `Hex.HexToMem` | sw/gdb_stub.c:101-110 | the loop decodes until the length is reached or a digit is missing |
| `Hex.RegRoundTrip` | sw/gdb_stub.c:113-132 | reading back the eight digits of a register gives the register |
| `Hex.RegIsBytes` | sw/gdb_stub.c:113-120 | a register's digits are those of its bytes in memory order |
| `Hex.DigitsRead` | sw/gdb_stub.c:68-73 | digits of both cases are read as their value, and no other character is a digit |
| `Hex.ParseHex` | sw/gdb_stub.c:80-88 | the value of the maximal run of digits modulo 2^32, and the position after it |
| `Hex.NumberRead` | sw/gdb_stub.c:80-88 | a number written in hexadecimal digits anywhere in a text reads back as that number |
| `Commands.PutReg` | sw/gdb_stub.c:113-120 | eight digits at their place in the buffer, what precedes untouched |
| `Commands.GetReg` | sw/gdb_stub.c:123-132 | the little-endian value of eight characters, invalid ones included |
| `Commands.Stub.ReadRegs` | sw/gdb_stub.c:464-474 | one frame with all registers, x0 as zero, inside the buffer |
| `Commands.Stub.WriteRegs` | sw/gdb_stub.c:477-483 | the registers of the packet's text, x0 kept zero, and one OK |
| `Commands.ReadFields` | sw/gdb_stub.c:488-493 | the two numbers of a packet's fields and where the rest begins |
| `Commands.FieldsRead` | sw/gdb_stub.c:488-493 | for every address and length as a host writes them, those are what the fields give |
| `Commands.Stub.ReadMem` | sw/gdb_stub.c:488-501 | one frame with the clamped dump at the packet's address, inside the buffer |
| `Commands.Stub.WriteMem` | sw/gdb_stub.c:504-511 | memory with the packet's bytes at its address, none for a length of 2^31 or more, the table untouched, and one OK |
| `Commands.GUndoesG` | sw/gdb_stub.c:464-483 | G with what g answered restores the registers with x0 zero |
| `Commands.ClampExact` | sw/gdb_stub.c:494-497 | the dump is as long as asked for, or as long as the reply's buffer allows |
| `Commands.DumpReads` | sw/gdb_stub.c:488-501 | byte k of the decoded reply is the byte of memory at the address plus k |
| `Commands.WritePacket` | sw/gdb_stub.c:504-511 | an M packet with any bytes puts them at its address, and one of 2^31 bytes or more puts nothing |
| `Commands.MUndoesM` | sw/gdb_stub.c:488-511 | the M packet made of an address and what m answered there leaves memory as it was |
| `Serial.Line.Get` | sw/gdb_stub.c:142-173 | up to three rounds: payload NUL-terminated inside the buffer, acknowledgements sent, input consumed |
| `Serial.Line.Round` | sw/gdb_stub.c:146-166 | one round of it |
| `Serial.Line.Put` | sw/gdb_stub.c:176-196 | the framed text before the first NUL, repeated until '+' comes back, three times at most |
| `Serial.AckedExactly` | sw/gdb_stub.c:178-195 | acknowledged if and only if one of the first three answers is '+', after one frame more than there were refusals |
| `Serial.Delivered` | sw/gdb_stub.c:142-196 | over a clean line the payload arrives, its '+' ends the transmission, and what was sent is one frame |
| `Rsp.FrameRoundTrip` | sw/gdb_stub.c:142-196 | receiving a framed payload returns it and sends '+', after any prefix without '$' |
| `Rsp.SumAppends` | sw/gdb_stub.c:176-196 | the checksum of a text is the sum of its characters modulo 256 |
| `Rsp.OkFrame` | sw/gdb_stub.c:176-202 | the frame of OK ends in 9a |
| `Rsp.CorruptionDetected` | sw/gdb_stub.c:149-170 | one payload character changed to anything but '#' is refused |
| `Rsp.Retransmission` | sw/gdb_stub.c:145-172 | and the retransmission is accepted |
| `Rsp.OverlongFrame` | sw/gdb_stub.c:151-166 | a frame too long for the buffer is accepted, cut, if and only if what was cut off sums to a multiple of 256 |
| `DbgUart.Registers.Clock` | rtl/dbg_uart.v:105-234 | one clock of all registers is the next state of the value model |
| `DbgUart.Registers.ClockRx` | rtl/dbg_uart.v:158-187 | the receiver's registers and the read register |
| `DbgUart.Registers.ClockCal` | rtl/dbg_uart.v:129-153 | the calibration registers, timeout included |
| `DbgUart.Registers.ClockBrk` | rtl/dbg_uart.v:218-231 | the break detector's registers |
| `DbgUart.Registers.ClockTx` | rtl/dbg_uart.v:192-213 | the transmitter's registers |
| `DbgUart.ArrivesReadable` | rtl/dbg_uart.v:122-124 | a byte that arrives is readable in the next clock even while the last one is read |
| `DbgUart.ReaderExact` | rtl/dbg_uart.v:122-179 | the processor reads exactly the bytes that arrived, in order, if and only if no byte arrives on one that is neither read nor being read |
| `DbgUart.Session` | rtl/dbg_uart.v:105-234 | from reset: a 0x55 byte sets the bit period to its own and is not delivered, every stream the calibrated rate tolerates is delivered in order, and the processor reads exactly that stream if and only if it is in time |
| `DbgUart.AfterLock` | rtl/dbg_uart.v:105-234 | from lock on receiver, transmitter and break detector of the whole UART run as each does alone |
| `DbgUart.Sends` | rtl/dbg_uart.v:192-213 | a byte written to a locked, idle UART goes out on its pin whatever is received meanwhile |
| `DbgUart.Conversation` | rtl/dbg_uart.v:105-234 | of two locked UARTs of one rate the listener gets what the other's processor had accepted, in order |
| `UartRx.ReachesSample` | rtl/dbg_uart.v:158-186 | the k-th sample is taken 1 + div/2 + k(div+1) clocks after the falling edge |
| `UartRx.FrameSampled` | rtl/dbg_uart.v:158-187 | a byte is handed over exactly when the stop sample is high, and the receiver is idle one clock later |
| `UartRx.FalseStart` | rtl/dbg_uart.v:168-170 | a line that is high at the first sample aborts the frame |
| `UartFrames.FrameReceived` | rtl/dbg_uart.v:158-187 | a tolerated frame is received and over before the next can begin |
| `UartFrames.StreamReceived` | rtl/dbg_uart.v:158-187 | any sequence of bytes, back to back or not, is delivered in order |
| `UartFrames.ToleranceExact` | rtl/dbg_uart.v:158-187 | s < P, 9(P-Q) <= s and 9(Q-P)+s < P if and only if every byte is accepted |
| `UartTx.FrameSent` | rtl/dbg_uart.v:192-213 | a write to an idle transmitter sends start, data and stop bits of div + 1 clocks each, whatever is written meanwhile |
| `UartTx.Loopback` | rtl/dbg_uart.v:158-213 | with a common divisor of at least one, every byte accepted by the transmitter is delivered by the receiver, in order |
| `UartBreak.PulseExact` | rtl/dbg_uart.v:96-100 | brk is high exactly when the line has been low for twelve bit periods and not a clock longer |
| `UartBreak.OncePerRun` | rtl/dbg_uart.v:218-231 | one pulse for each low run of at least twelve bit periods, none for shorter ones |
| `UartBreak.FrameIsNoBreak` | rtl/dbg_uart.v:218-231 | no frame of a tolerated sender pulses |
| `UartBreak.BreakDeliversNothing` | rtl/dbg_uart.v:175-182 | a break that begins from idle delivers no byte |
| `UartBaud.LockRoundsUp` | rtl/dbg_uart.v:129-148 | the bit period is an eighth of the time from first to fifth falling edge, rounded up |
| `UartBaud.LockExact` | rtl/dbg_uart.v:138-144 | eight bit periods apart give the bit period exactly |
| `UartBaud.SelfCalibrates` | rtl/dbg_uart.v:126-153 | a 0x55 frame locks its own bit period, in its ninth bit and not before |
| `UartBaud.TimesOut` | rtl/dbg_uart.v:149-151 | an attempt that has not finished when the counter is full is given up |

## Left out

- Configuration: the composed core is RV32I with NRV_M, the radix-2 serial multiplier, the serial shifter, NRV_SRA and two register-file ports. The Booth and parallel multipliers and the barrel shifter are proved on their own. RV32E, the single-port register file, the shared adder and the performance counters are not part of this model.
- `CoreRefines.CoreRefinesIsa`: speaks of legal instructions with aligned accesses (`LoadRoundsDown` and `StoreRoundsDown` say what others do), of stores that leave their own encoding alone (`CoherentExactly` says why), of ECALL and EBREAK without an asynchronous trap and of the harmless cases of `SkippedExact`. An illegal encoding does not trap in the source.
- FENCE with a destination other than x0 is taken as reserved; the core writes zero to that register.
- Bus: one word port that may stall a read or a store for any number of clocks and shows anything on its data lines otherwise. A read strobe replaces a read in progress, which happens when S_WAIT is skipped. `rtl/attorv32_ahbl.v` is not part of this model.
- Hardware breakpoints (`rtl/hw_bkpt.v`, packets Z1 and z1), ROM contents and SoC wiring are not part of this model.
- `SingleStep.StepTransparent`: needs successors that overlap neither each other nor the instruction, and data that misses the planted bytes, as the stub itself does. The register save and restore in `sw/crt0_stub.S` is taken as the identity; the core's part is the ISA step that `CoreRefinesIsa` gives.
- `PatchRuns.RunIsOverlay`: breakpoints that overlap other breakpoints, and stores over a breakpoint (by the program or by an M packet), are excluded; the table does not track them.
- The dispatch on a packet's first letter, the packets with a fixed answer and the argument parsing of Z and z are not part of this model.
- `Breakpoints`, `PatchRuns` and `SingleStep` take the stub's word accesses as C has them; `LanePlanting` says where the core's lanes agree.
- Checksum characters that are not hexadecimal digits are modelled as the code reads them, and nothing is claimed about them.
- `Serial.Line.Get`: input is a finite text. Where the source would wait for a character that does not come, the model returns.
- UART: the two-stage synchroniser only delays the line and is left out; runs begin after reset.
- Clocked blocks update value records inside a class where the source has one register each; simultaneous updates are modelled by reading the state before the edge.
