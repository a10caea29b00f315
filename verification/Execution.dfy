/** The clock edge that ends S_EXECUTE: PC, memory, CSRs and, for instructions that need no
    further clocks, registers are those the ISA prescribes. */
module Execution {
  import opened Arith
  import opened Isa
  import opened Machine
  import opened Core
  import opened Bus
  import opened Signals
  import opened Datapath
  import ByteLanes
  import FetchUnit

  // The trap requests the core accepts together with an instruction.
  predicate TakesIrq(a: Arch, x: Inputs) { x.irq && a.csrs.mie && !a.csrs.handler }
  predicate TakesNmi(a: Arch, x: Inputs) { x.nmi && !a.csrs.handler }
  predicate TakesDbg(a: Arch, x: Inputs) { x.dbg && !a.csrs.dbgMask }
  predicate TakesAny(a: Arch, x: Inputs) { TakesIrq(a, x) || TakesNmi(a, x) || TakesDbg(a, x) }

  // An instruction and the asynchronous trap accepted with it: the trap comes after the
  // instruction and returns to the one that follows.
  function Outcome(a: Arch, insn: Insn, x: Inputs, mtvec: int): Arch
    requires Valid(a)
  {
    var r := Execute(a, insn, mtvec);
    if TakesAny(a, x) then EnterTrap(r, r.pc, mtvec, TakesIrq(a, x), false, TakesNmi(a, x), TakesDbg(a, x)) else r
  }

  // No asynchronous trap together with an ECALL or EBREAK that traps itself: the core always
  // gets that wrong.
  predicate Clean(a: Arch, insn: Insn, x: Inputs)
  {
    Traps(a, insn) ==> !TakesAny(a, x)
  }

  // An NMI or debug halt without an interrupt on an instruction that still needs S_WAIT: the core
  // does not go there.
  predicate Skips(a: Arch, insn: Insn, x: Inputs)
  {
    !Immediate(insn) && TakesAny(a, x) && !TakesIrq(a, x)
  }

  // Only aligned loads and stores.
  predicate AlignedAccess(a: Arch, insn: Insn)
    requires Valid(a)
  {
    insn.Load? || insn.Store? ==> Aligned(insn.width, EffectiveAddress(a, insn.rs1, insn.imm))
  }

  lemma ArchValid(p: Params, s: System)
    requires ValidSystem(p, s)
    ensures Valid(ArchOf(s))
  {
    hide Pow2, Sized;
  }

  lemma CsrsCorrect(p: Params, s: System, x: Inputs, insn: Insn)
    requires Ready(p, s, insn) && Valid(ArchOf(s)) && Clean(ArchOf(s), insn, x)
    ensures CsrsOf(NextBack(p, s.core, x)) == Outcome(ArchOf(s), insn, x, p.mtvec).csrs
  {
    hide Pow2, Encodes, FetchUnit.OperandsRead, PcNew, IsSystem, IsMret, IsEcall, IsEnvTrap, NextRegs, NextMul,
      NextDiv, NextShift, Write, Result, Destination, Stored, Target, CsrWrite, WriteCsr, CsrValue, ReadCsr,
      SourceValue, NextMstatus, NextMepc, ValidCore, Valid, LongAt, Immediate, CsrWriteEnable;
    ClassSignals(s.core.front.instr, insn);
    SystemSignals(s.core.front.instr, insn);
    PlainCsrs(p, s, insn);
    MepcCorrect(p, s, x, insn);
  }

  // mepc after the clock: the next PC, this PC, what a CSR instruction wrote, or as before.
  lemma MepcCorrect(p: Params, s: System, x: Inputs, insn: Insn)
    requires Ready(p, s, insn) && Valid(ArchOf(s)) && Clean(ArchOf(s), insn, x)
    ensures NextMepc(p, s.core, x) == (if TakesAny(ArchOf(s), x) then Target(ArchOf(s), insn)
                                       else if Traps(ArchOf(s), insn) then s.core.front.pc
                                       else CsrsAfter(ArchOf(s), insn).mepc)
  {
    hide Pow2, Encodes, FetchUnit.OperandsRead, PcNew, IsSystem, IsMret, IsEcall, IsEnvTrap, Target, CsrWrite,
      CsrsAfter, ValidCore, Valid, LongAt, Immediate, CsrWriteEnable;
    SystemSignals(s.core.front.instr, insn);
    PlainCsrs(p, s, insn);
    if !Traps(ArchOf(s), insn) { PcNewCorrect(p, s, insn); }
  }

  // CSRRW, CSRRS and CSRRC and their immediate forms, MRET, and everything else.
  lemma PlainCsrs(p: Params, s: System, insn: Insn)
    requires Ready(p, s, insn) && Valid(ArchOf(s))
    ensures var c := s.core;
      CsrsAfter(ArchOf(s), insn) == Csrs(NextMstatus(p, c),
        if CsrWriteEnable(c) && c.front.instr >> 20 == 0x341 then CsrWrite(p, c) % p.size else c.back.mepc,
        c.back.mcause && !insn.Mret?, c.back.mcauseIrq, c.back.mcauseEcall, c.back.mcauseNmi,
        c.back.dbgMask && !insn.Mret?)
  {
    hide Pow2, Encodes, FetchUnit.OperandsRead, CsrWrite, CsrValue, ReadCsr, ValidCore, Valid, LongAt, IsSystem,
      SourceValue;
    ClassSignals(s.core.front.instr, insn);
    SystemSignals(s.core.front.instr, insn);
    if insn.Csr? { CsrWrites(p, s, insn); }
  }

  lemma CsrWrites(p: Params, s: System, insn: Insn)
    requires Ready(p, s, insn) && Valid(ArchOf(s)) && insn.Csr?
    ensures s.core.front.instr >> 20 == CsrCode(insn.csr)
    ensures CsrWrite(p, s.core)
         == CsrValue(insn.csrOp, ReadCsr(ArchOf(s).csrs, insn.csr, p.size), SourceValue(ArchOf(s), insn.source))
  {
    hide Pow2, LongAt, Sized, Rd, Rs2, CsrRead, ReadCsr, CsrModifier, SourceValue, ValidCore, Valid, AndW, OrW, NotW,
      Funct3;
    CsrReadCorrect(p, s, insn);
    CsrSourceCorrect(p, s, insn);
    FunctBits(s.core.front.instr);
  }

  lemma CsrSourceCorrect(p: Params, s: System, insn: Insn)
    requires Ready(p, s, insn) && insn.Csr?
    ensures CsrModifier(s.core) == SourceValue(ArchOf(s), insn.source)
  {
    hide Pow2, LongAt, Sized, Rd, Rs2, ImmI, ImmS, ImmB, ImmU, ImmJ, ValidCore;
    Pow32();
    ImmediateSource(s.core.front.instr);
  }

  lemma ImmediateSource(i: bv32)
    ensures ((i >> 14) & 1 == 1) == (Funct3(i) & 4 != 0)
    ensures ((i >> 15) & 31) as int == Rs1(i) as int
  {
  }

  // The registers of an instruction that is done in S_EXECUTE.
  lemma RegsCorrect(p: Params, s: System, x: Inputs, insn: Insn)
    requires Ready(p, s, insn) && Valid(ArchOf(s)) && Clean(ArchOf(s), insn, x) && Immediate(insn)
    ensures NextRegs(p, s.core, x) == Outcome(ArchOf(s), insn, x, p.mtvec).regs
  {
    hide Pow2, Encodes, FetchUnit.OperandsRead, IsBranch, IsStore, Result, Destination, Stored, Target, CsrsAfter,
      LongAt, ValidCore, WriteBackData, Valid, TakesAny, Clean, Immediate;
    ClassSignals(s.core.front.instr, insn);
    SystemSignals(s.core.front.instr, insn);
    DestinationCorrect(p, s, insn);
    BranchWritesNothing(insn);
    ImmediateNotStore(insn);
    if Destination(insn) != 0 { ImmediateResult(p, s, x, insn); }
  }

  lemma BranchWritesNothing(insn: Insn)
    ensures insn.Branch? || insn.Store? || insn.Ecall? || insn.Ebreak? ==> Destination(insn) == 0
  {
  }

  lemma ImmediateNotStore(insn: Insn)
    ensures Immediate(insn) ==> !insn.Store?
    ensures insn.Ecall? || insn.Ebreak? ==> Immediate(insn)
  {
  }

  // Memory after the clock.
  lemma MemoryCorrect(p: Params, s: System, insn: Insn)
    requires Ready(p, s, insn) && Valid(ArchOf(s)) && AlignedAccess(ArchOf(s), insn)
    ensures Written(p, s.core, s.mem) == Stored(ArchOf(s), insn)
  {
    hide Pow2, Rd, Rs1, Rs2, ImmS, ImmI, Funct3, LongAt, ValidCore, Valid, PutLanes, MemWdata, MemWmask, StoreValue,
      LoadStoreAddr, EffectiveAddress;
    ClassSignals(s.core.front.instr, insn);
    if insn.Store? {
      LoadAddress(p, s, insn);
      ByteLanes.StoreCorrect(p, s.core, s.mem, insn);
    }
  }

  lemma OutcomePc(a: Arch, insn: Insn, x: Inputs, mtvec: int)
    requires Valid(a)
    ensures Outcome(a, insn, x, mtvec).pc == if Traps(a, insn) || TakesAny(a, x) then mtvec else Target(a, insn)
  {
    hide Valid, Target, Result, Destination, Stored, CsrsAfter, Write, Traps, TakesIrq, TakesNmi, TakesDbg;
  }

  lemma TrapSignals(p: Params, s: System, x: Inputs, insn: Insn)
    requires Ready(p, s, insn)
    ensures IrqAccepted(s.core, x) == TakesIrq(ArchOf(s), x)
    ensures TrapEntry(s.core, x) == (Traps(ArchOf(s), insn) || TakesAny(ArchOf(s), x))
  {
    hide Encodes, FetchUnit.OperandsRead, IsEnvTrap, LongAt, ValidCore;
    SystemSignals(s.core.front.instr, insn);
  }

  // The FSM's next state, and the registers it keeps for S_WAIT.
  lemma FrontCorrect(p: Params, s: System, x: Inputs, insn: Insn)
    requires Ready(p, s, insn) && Valid(ArchOf(s)) && Clean(ArchOf(s), insn, x) && !WfiStall(s.core, x)
    ensures var c, f, a := s.core.front, NextFront(p, s.core, x), ArchOf(s);
      && f.pc == Outcome(a, insn, x, p.mtvec).pc
      && f.instr == c.instr && f.rs1 == c.rs1 && f.rs2 == c.rs2
      && (if Immediate(insn) || Skips(a, insn, x) then f.state.FetchInstr? || f.state.WaitInstr? else f.state.WaitUnit?)
  {
    hide Pow2, Encodes, FetchUnit.OperandsRead, NeedToWait, PcNew, NextHit, UnalignedLong, WfiStall, LongAt,
      ValidCore, Valid, Target, Immediate, Outcome, TrapEntry, IrqAccepted, TakesAny, Traps, TakesIrq;
    WaitsExactly(s.core.front.instr, insn);
    TrapSignals(p, s, x, insn);
    OutcomePc(ArchOf(s), insn, x, p.mtvec);
    TrapsAreImmediate(ArchOf(s), insn);
    if !Traps(ArchOf(s), insn) { PcNewCorrect(p, s, insn); }
  }

  lemma TrapsAreImmediate(a: Arch, insn: Insn)
    ensures Traps(a, insn) ==> Immediate(insn)
  {
  }
}
