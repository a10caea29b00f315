/** Asynchronous traps accepted together with an instruction that is not done in S_EXECUTE: with an
    ECALL or EBREAK that traps itself, and, other than an interrupt, with one that still needs
    S_WAIT. */
module TrapCoincidences {
  import opened Arith
  import opened Isa
  import opened Machine
  import opened Core
  import opened Bus
  import opened Bits
  import opened Signals
  import opened Datapath
  import opened Execution
  import ByteLanes
  import opened Loads
  import Completion
  import Divider
  import FetchUnit

  // The environment call's own trap is lost: the saved PC is that of the instruction after it,
  // so the handler that returns there never has it executed.
  lemma AsyncOnEnvTrap(p: Params, s: System, x: Inputs, insn: Insn)
    requires Ready(p, s, insn) && Valid(ArchOf(s)) && Traps(ArchOf(s), insn) && TakesAny(ArchOf(s), x)
    ensures NextFront(p, s.core, x).pc == p.mtvec
    ensures NextBack(p, s.core, x).mepc == NextPc(s.mem, s.core.front.pc) != Execute(ArchOf(s), insn, p.mtvec).csrs.mepc
    ensures NextBack(p, s.core, x).mcauseEcall == insn.Ecall?
  {
    hide Pow2, Encodes, FetchUnit.OperandsRead, IsEnvTrap, IsMret, IsWfi, IsEcall, IsBranch, IsJal, IsJalr, Predicate,
      LongAt, NextRegs, NextMul, NextDiv, NextShift, NextMstatus, Target, Result, Stored, CsrsAfter, AluPlus,
      PcPlusImm;
    ClassSignals(s.core.front.instr, insn);
    SystemSignals(s.core.front.instr, insn);
    SizeFits(p.size);
    Elsewhere(s.core.front.pc, if s.core.front.longInstr then 4 else 2, p.size);
  }

  lemma Elsewhere(pc: int, step: int, n: int)
    requires 0 <= pc < n && 0 < step < n
    ensures (pc + step) % n != pc
  {
    ModOnce(pc + step, n);
  }

  // S_WAIT is skipped: the destination keeps what S_EXECUTE wrote into it, which is whatever the
  // unit or the bus showed in that clock.
  lemma SkipsWait(p: Params, s: System, x: Inputs, insn: Insn)
    requires Ready(p, s, insn) && Valid(ArchOf(s)) && Skips(ArchOf(s), insn, x)
    ensures NextFront(p, s.core, x).state.FetchInstr? && NextFront(p, s.core, x).pc == p.mtvec
    ensures NextRegs(p, s.core, x)
         == if insn.Store? then s.core.back.regs
           else Write(s.core.back.regs, Destination(insn), WriteBackData(p, s.core, x))
  {
    hide Pow2, Encodes, FetchUnit.OperandsRead, IsBranch, IsStore, LongAt, NeedToWait, PcNew, NextHit, UnalignedLong,
      Immediate, WriteBackData, Write, TrapEntry, IrqAccepted, IsWfi, Destination, TakesIrq;
    ClassSignals(s.core.front.instr, insn);
    SystemSignals(s.core.front.instr, insn);
    DestinationCorrect(p, s, insn);
    WaitsExactly(s.core.front.instr, insn);
    TrapSignals(p, s, x, insn);
    Completion.NotImmediate(insn);
  }

  /* What S_EXECUTE shows of the result already: of a load, the lanes it selects as they are on
     the bus; of a shift, multiplication or division, the register the unit is left with. */
  predicate Shows(p: Params, s: System, x: Inputs, insn: Insn)
    requires ValidSystem(p, s)
  {
    Fits(p);
    var c, a := s.core, LoadStoreAddr(p, s.core);
    match insn
    case Load(width, unsigned, rd, rs1, imm) => LanesAgree(width, a, x.rdata, WordAt(s.mem, a / 4))
    case ShiftImm(op, rd, rs1, amount) => Trunc(c.back.shift.data) == ShiftW(op, c.front.rs1, amount as int)
    case OpReg(op, rd, rs1, rs2) =>
      op.Shifting? && Trunc(c.back.shift.data) == ShiftW(op.shift, c.front.rs1, c.front.rs2 % 32)
    case MulReg(op, rd, rs1, rs2) => Trunc(c.back.mul.Read(32, op)) == MulW(op, c.front.rs1, c.front.rs2)
    case DivReg(op, rd, rs1, rs2) =>
      Trunc(Divider.Read(32, op, c.front.rs1, c.front.rs2, c.back.div)) == DivW(op, c.front.rs1, c.front.rs2)
    case _ => false
  }

  // The lanes an access at a selects.
  predicate LanesAgree(width: Width, a: int, d: Lanes, e: Lanes)
  {
    match width
    case Byte => ByteLanes.Lane(d, a % 4) == ByteLanes.Lane(e, a % 4)
    case Half => if a / 2 % 2 == 1 then d.b2 == e.b2 && d.b3 == e.b3 else d.b0 == e.b0 && d.b1 == e.b1
    case Full => d == e
  }

  // Skipping S_WAIT does no harm to a store, to an instruction without a destination, and to one
  // whose result is there already.
  predicate Harmless(p: Params, s: System, x: Inputs, insn: Insn)
    requires ValidSystem(p, s)
  {
    insn.Store? || Destination(insn) == 0 || Shows(p, s, x, insn)
  }

  // Words are equal when their bytes are.
  lemma SameNumber(a: bv8, b: bv8)
    ensures Number8(a) == Number8(b) <==> a == b
  {
  }

  lemma SamePair(a: bv8, b: bv8, c: bv8, d: bv8)
    ensures HalfValue(a, b) == HalfValue(c, d) <==> a == c && b == d
    ensures 0 <= HalfValue(a, b) < 0x1_0000
  {
    hide Number8, HalfValue;
    ByteNumbers(a, b, c, d);
    ByteNumbers(c, d, a, b);
    SameNumber(a, c);
    SameNumber(b, d);
  }

  lemma SameLanes(d: Lanes, e: Lanes)
    ensures WordValue(d.b0, d.b1, d.b2, d.b3) == WordValue(e.b0, e.b1, e.b2, e.b3) <==> d == e
  {
    hide Pow2, HalfValue;
    SamePair(d.b0, d.b1, e.b0, e.b1);
    SamePair(d.b2, d.b3, e.b2, e.b3);
    SamePair(e.b0, e.b1, d.b0, d.b1);
  }

  lemma WrittenWord(regs: seq<Word>, rd: bv5, u: Word, v: Word)
    requires |regs| == 32
    ensures Write(regs, rd, u) == Write(regs, rd, v) <==> rd == 0 || u == v
  {
    hide Pow2;
    if rd != 0 && Write(regs, rd, u) == Write(regs, rd, v) {
      assert Write(regs, rd, u)[rd as int] == u && Write(regs, rd, v)[rd as int] == v;
    }
  }


  lemma ExtendInjective(unsigned: bool, v: int, w: int, sign: int)
    requires 0 <= v < 2 * sign && 0 <= w < 2 * sign && 2 * sign <= 0x1_0000
    ensures ExtendValue(unsigned, v, sign) == ExtendValue(unsigned, w, sign) <==> v == w
  {
    hide Pow2;
    Pow32();
  }

  // Two words on the bus load the same value exactly when they agree on the lanes selected.
  lemma SameLoad(p: Params, c: Core, x: Inputs, y: Inputs, insn: Insn)
    requires ValidCore(p, c) && Encodes(c.front.instr, insn) && insn.Load?
    ensures LoadData(p, c, x) == LoadData(p, c, y) <==> LanesAgree(insn.width, LoadStoreAddr(p, c), x.rdata, y.rdata)
  {
    hide Pow2, Encodes, LoadStoreAddr, LoadData, ExtendValue, HalfValue, WordValue, Number8, ByteLanes.Lane;
    match insn.width
    case Byte =>
      LoadedByte(p, c, x, insn);
      LoadedByte(p, c, y, insn);
      var d, e := ByteLanes.Lane(x.rdata, LoadStoreAddr(p, c) % 4), ByteLanes.Lane(y.rdata, LoadStoreAddr(p, c) % 4);
      SameNumber(d, e);
      ExtendInjective(insn.unsigned, Number8(d), Number8(e), 0x80);
    case Half =>
      LoadedHalf(p, c, x, insn);
      LoadedHalf(p, c, y, insn);
      var d, e := LoadHalf(p, c, x), LoadHalf(p, c, y);
      SamePair(d.0, d.1, e.0, e.1);
      SamePair(e.0, e.1, d.0, d.1);
      ExtendInjective(insn.unsigned, HalfValue(d.0, d.1), HalfValue(e.0, e.1), 0x8000);
    case Full =>
      LoadedFull(p, c, x, insn);
      LoadedFull(p, c, y, insn);
      SameLanes(x.rdata, y.rdata);
  }

  // A load writes back the right value exactly when its lanes are right.
  lemma LoadShows(p: Params, s: System, x: Inputs, insn: Insn)
    requires Ready(p, s, insn) && Valid(ArchOf(s)) && insn.Load? && AlignedAccess(ArchOf(s), insn)
    ensures WriteBackData(p, s.core, x) == Result(ArchOf(s), insn) <==> Shows(p, s, x, insn)
  {
    hide Pow2, Encodes, FetchUnit.OperandsRead, LongAt, LoadStoreAddr, EffectiveAddress, LoadValue, LoadData, WordAt,
      IsLoad, IsSystem, IsLui, IsAluImm, IsAluReg, IsAuipc, IsJal, IsJalr, LanesAgree;
    Fits(p);
    LoadAddress(p, s, insn);
    ClassSignals(s.core.front.instr, insn);
    WordIndex(LoadStoreAddr(p, s.core), p.size);
    var good := x.(rdata := WordAt(s.mem, LoadStoreAddr(p, s.core) / 4));
    ByteLanes.LoadCorrect(p, s.core, good, s.mem, insn);
    SameLoad(p, s.core, x, good, insn);
  }

  // And the units write back the register they are left with.
  lemma UnitShows(p: Params, s: System, x: Inputs, insn: Insn)
    requires Ready(p, s, insn) && Valid(ArchOf(s)) && !Immediate(insn) && !insn.Load? && !insn.Store?
    ensures WriteBackData(p, s.core, x) == Result(ArchOf(s), insn) <==> Shows(p, s, x, insn)
  {
    hide Pow2, Encodes, FetchUnit.OperandsRead, LongAt, LoadStoreAddr, IsLoad, IsSystem, IsLui, IsAluImm, IsAluReg,
      IsAuipc, IsJal, IsJalr, AluOut, ShiftW, MulW, DivW, Trunc, Immediate, Divider.Read;
    ClassSignals(s.core.front.instr, insn);
    Completion.NotImmediate(insn);
    Completion.Operands(p, s, insn);
    ShownByUnit(p, s, insn);
  }

  lemma ShownByUnit(p: Params, s: System, insn: Insn)
    requires Ready(p, s, insn) && !Immediate(insn) && !insn.Load? && !insn.Store?
    ensures var c := s.core;
      AluOut(c) == match insn
                   case MulReg(op, rd, rs1, rs2) => Trunc(c.back.mul.Read(32, op))
                   case DivReg(op, rd, rs1, rs2) => Trunc(Divider.Read(32, op, c.front.rs1, c.front.rs2, c.back.div))
                   case _ => Trunc(c.back.shift.data)
  {
    hide Pow2, Encodes, FetchUnit.OperandsRead, LongAt, IsAluImm, IsAluReg, FuncM, Trunc, Immediate, Divider.Read,
      UnitMulOp, UnitDivOp;
    ClassSignals(s.core.front.instr, insn);
    UnitSignals(s.core.front.instr, insn);
    Completion.NotImmediate(insn);
    Completion.MulCode(s.core.front.instr);
  }

  // The registers are right exactly in the harmless cases.
  lemma SkippedExact(p: Params, s: System, x: Inputs, insn: Insn)
    requires Ready(p, s, insn) && Valid(ArchOf(s)) && AlignedAccess(ArchOf(s), insn) && Skips(ArchOf(s), insn, x)
    ensures NextRegs(p, s.core, x) == Outcome(ArchOf(s), insn, x, p.mtvec).regs <==> Harmless(p, s, x, insn)
  {
    hide Pow2, Encodes, FetchUnit.OperandsRead, LongAt, LoadStoreAddr, EffectiveAddress, NextRegs, WriteBackData,
      LoadValue, LoadData, AlignedAccess, TakesIrq, TakesAny, Target, CsrsAfter, Stored, Shows, Result, Destination,
      Immediate, Write;
    SkipsWait(p, s, x, insn);
    TrapsAreImmediate(ArchOf(s), insn);
    BranchWritesNothing(insn);
    NothingWritten(s.core.back.regs, Result(ArchOf(s), insn));
    WrittenWord(s.core.back.regs, Destination(insn), WriteBackData(p, s.core, x), Result(ArchOf(s), insn));
    if insn.Load? {
      LoadShows(p, s, x, insn);
    } else if !insn.Store? {
      UnitShows(p, s, x, insn);
    }
  }

  lemma NothingWritten(regs: seq<Word>, x: Word)
    requires |regs| == 32
    ensures Write(regs, 0, x) == regs
  {
  }
}
