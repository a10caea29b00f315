/** What the core computes in S_EXECUTE, signal by signal, against the meaning of the
    instruction: ALU, comparisons, addresses, next PC, CSRs, and the byte lanes. */
module Datapath {
  import opened Arith
  import opened Isa
  import opened Machine
  import opened Core
  import opened Bus
  import opened Signals
  import FetchUnit

  function CsrsOf(b: Back): Csrs
  {
    Csrs(b.mstatus, b.mepc, b.mcause, b.mcauseIrq, b.mcauseEcall, b.mcauseNmi, b.dbgMask)
  }

  // The architectural state held in the core and its memory.
  function ArchOf(s: System): Arch
  {
    Arch(s.core.front.pc, s.core.back.regs, s.mem, CsrsOf(s.core.back))
  }

  // S_EXECUTE with the instruction at the PC and its operands in the registers.
  predicate Ready(p: Params, s: System, insn: Insn)
  {
    && ValidSystem(p, s) && s.core.front.state.ExecuteInstr? && FetchUnit.OperandsRead(s.core)
    && Encodes(s.core.front.instr, insn) && !insn.Illegal?
    && s.core.front.longInstr == LongAt(s.mem, s.core.front.pc)
  }

  // The 33-bit subtractor: difference modulo 2^32, and the borrow.
  lemma Subtraction(x: int, y: int, h: int)
    requires 0 <= x < 2 * h && 0 <= y < 2 * h
    ensures (2 * h + (2 * h - 1 - y) + x + 1) % (4 * h) == if x < y then 4 * h + x - y else x - y
    ensures (4 * h + x - y) % (2 * h) == if x < y then 2 * h + x - y else x - y
    ensures (x - y) % (2 * h) == if x < y then 2 * h + x - y else x - y
  {
    if x < y {
      DivMod(4 * h + x - y, 2 * h, 1, 2 * h + x - y);
      DivMod(x - y, 2 * h, -1, 2 * h + x - y);
      DivMod(4 * h + x - y, 4 * h, 0, 4 * h + x - y);
    } else {
      DivMod(4 * h + x - y, 2 * h, 2, x - y);
      DivMod(x - y, 2 * h, 0, x - y);
      DivMod(4 * h + x - y, 4 * h, 1, x - y);
    }
  }

  lemma Doubling()
    ensures Pow2(32) == 2 * Pow2(31) && Pow2(33) == 4 * Pow2(31)
  {
  }

  lemma Minus(c: Core)
    ensures var x: int, y: int := AluIn1(c), AluIn2(c);
      AluMinus(c) == if x < y then 2 * Pow2(32) + x - y else x - y
    ensures Trunc(AluMinus(c)) == Trunc(AluIn1(c) - AluIn2(c))
  {
    hide Pow2, AluIn1, AluIn2;
    Doubling();
    var x: int, y: int, h := AluIn1(c), AluIn2(c), Pow2(31);
    Subtraction(x, y, h);
    if x >= y { DivMod(x - y, 2 * h, 0, x - y); }
  }

  lemma Comparisons(c: Core)
    ensures Below(c) == (AluIn1(c) < AluIn2(c))
    ensures Less(c) == (SignedW(AluIn1(c)) < SignedW(AluIn2(c)))
    ensures Same(c) == (AluIn1(c) == AluIn2(c))
  {
    hide Pow2, AluIn1, AluIn2, AluMinus;
    Doubling();
    Minus(c);
    var x: int, y: int, h := AluIn1(c), AluIn2(c), Pow2(31);
    Subtraction(x, y, h);
  }

  // Adding address parts after truncating them is truncating the sum.
  lemma SumMod(x: int, y: int, n: int)
    requires n > 0
    ensures (x % n + y % n) % n == (x + y) % n
    ensures (x + y % n) % n == (x + y) % n
  {
    var xq, xr, yq, yr := x / n, x % n, y / n, y % n;
    assert x == xq * n + xr && y == yq * n + yr;
    assert (xq + yq) * n == xq * n + yq * n;
    ModShift(xr + yr, xq + yq, n);
    ModShift(x + yr, yq, n);
  }

  lemma WordMod(x: int, size: nat)
    requires Sized(size)
    ensures size > 0 && x % Pow2(32) % size == x % size
  {
    hide Pow2, Sized;
    SizeFits(size);
    var q :| Pow2(32) == q * size;
    var k := x / Pow2(32);
    assert x == x % Pow2(32) + k * q * size by { assert k * (q * size) == k * q * size; }
    ModShift(x % Pow2(32), k * q, size);
  }

  // Addresses.
  lemma LoadAddress(p: Params, s: System, insn: Insn)
    requires Ready(p, s, insn) && (insn.Load? || insn.Store?)
    ensures Valid(ArchOf(s))
    ensures LoadStoreAddr(p, s.core) == EffectiveAddress(ArchOf(s), insn.rs1, insn.imm)
  {
    hide Pow2, Rd, Rs1, Rs2, ImmI, ImmS, Funct3, LongAt, Sized;
    OpcodeBits(s.core.front.instr);
    var imm := if insn.Load? then ImmI(s.core.front.instr) else ImmS(s.core.front.instr);
    SizeFits(p.size);
    SumMod(s.core.front.rs1, ToWord(imm), p.size);
  }

  lemma JumpTarget(p: Params, s: System, insn: Insn)
    requires Ready(p, s, insn) && insn.Jalr?
    ensures Valid(ArchOf(s))
    ensures AluPlus(s.core) % p.size == EffectiveAddress(ArchOf(s), insn.rs1, insn.imm)
  {
    hide Pow2, Rd, Rs1, Rs2, ImmI, Funct3, LongAt, Sized;
    OpcodeBits(s.core.front.instr);
    WordMod(s.core.front.rs1 + ToWord(ImmI(s.core.front.instr)), p.size);
  }

  lemma RelativeTarget(p: Params, s: System, insn: Insn)
    requires Ready(p, s, insn) && (insn.Jal? || insn.Branch? || insn.Auipc?)
    ensures PcPlusImm(p, s.core) == (s.core.front.pc + ToWord(insn.imm)) % p.size
  {
    hide Pow2, Rd, Rs1, Rs2, ImmB, ImmJ, ImmU, Funct3, LongAt, Sized, FetchUnit.OperandsRead;
    OpcodeBits(s.core.front.instr);
    SizeFits(p.size);
    SumMod(s.core.front.pc, ToWord(insn.imm), p.size);
  }

  lemma BranchTaken(p: Params, s: System, insn: Insn)
    requires Ready(p, s, insn) && insn.Branch?
    ensures Predicate(s.core) == Holds(insn.cond, Reg(ArchOf(s), insn.rs1), Reg(ArchOf(s), insn.rs2))
  {
    hide Pow2, Rd, Rs1, Rs2, ImmB, Funct3, LongAt, Sized, AluMinus, Below, Less, Same;
    OpcodeBits(s.core.front.instr);
    Comparisons(s.core);
  }

  // The next PC, for every instruction that does not trap.
  lemma PcNewCorrect(p: Params, s: System, insn: Insn)
    requires Ready(p, s, insn) && !Traps(ArchOf(s), insn)
    ensures Valid(ArchOf(s)) && PcNew(p, s.core) == Target(ArchOf(s), insn)
  {
    hide Pow2, Encodes, IsJal, IsJalr, IsBranch, IsMret, LongAt, Sized, Predicate, PcPlusImm, AluPlus, Holds,
      EffectiveAddress, FetchUnit.OperandsRead;
    ClassSignals(s.core.front.instr, insn);
    SystemSignals(s.core.front.instr, insn);
    if insn.Jal? {
      RelativeTarget(p, s, insn);
    } else if insn.Jalr? {
      JumpTarget(p, s, insn);
    } else if insn.Branch? {
      RelativeTarget(p, s, insn);
      BranchTaken(p, s, insn);
    }
  }

  // The register an instruction writes, when the core's write-back does.
  lemma DestinationCorrect(p: Params, s: System, insn: Insn)
    requires Ready(p, s, insn)
    ensures insn.Store? || insn.Branch? || Destination(insn) == Rd(s.core.front.instr)
  {
    hide Pow2, LongAt, Sized, Rd, Rs1, Rs2, ImmB, ImmI, ImmJ, ImmU, ImmS, Funct3, Funct7, AluOf, ShiftCode,
      FetchUnit.OperandsRead;
    SystemSignals(s.core.front.instr, insn);
  }

  // Instructions whose result is ready in S_EXECUTE.
  predicate Immediate(insn: Insn)
  {
    !insn.Load? && !insn.Store? && !insn.ShiftImm? && !insn.MulReg? && !insn.DivReg?
      && !(insn.OpReg? && insn.op.Shifting?)
  }

  lemma AluCorrect(p: Params, s: System, insn: Insn)
    requires Ready(p, s, insn) && (insn.OpImm? || (insn.OpReg? && !insn.op.Shifting?))
    ensures Valid(ArchOf(s)) && AluOut(s.core) == Result(ArchOf(s), insn)
  {
    hide Pow2, LongAt, Sized, Rd, Rs1, Rs2, ImmI, Funct3, Funct7, AluMinus, Below, Less, SignedW, ShiftW, MulW, DivW,
      AndW, OrW, XorW, Trunc, LoadValue, ReadCsr, EffectiveAddress, AluOutMulDiv;
    OpcodeBits(s.core.front.instr);
    FunctBits(s.core.front.instr);
    FunctRange(s.core.front.instr);
    Comparisons(s.core);
    Minus(s.core);
  }

  lemma CsrReadCorrect(p: Params, s: System, insn: Insn)
    requires Ready(p, s, insn) && insn.Csr?
    ensures Valid(ArchOf(s)) && CsrRead(p, s.core) == ReadCsr(ArchOf(s).csrs, insn.csr, p.size)
  {
    hide Pow2, LongAt, Sized, Rd, Rs1, Rs2, Funct3, FetchUnit.OperandsRead;
    SizeFits(p.size);
    Pow32();
  }

  lemma ImmediateResult(p: Params, s: System, x: Inputs, insn: Insn)
    requires Ready(p, s, insn) && Immediate(insn) && Destination(insn) != 0
    ensures Valid(ArchOf(s)) && WriteBackData(p, s.core, x) == Result(ArchOf(s), insn)
  {
    hide Pow2, LongAt, Sized, Encodes, FetchUnit.OperandsRead, AluOut, CsrRead, ReadCsr, PcPlusImm, EffectiveAddress,
      Alu, ShiftW, MulW, DivW, LoadData, LoadValue, IsLui, IsAluImm, IsAluReg, IsSystem, IsAuipc, IsJal, IsJalr,
      IsLoad;
    ClassSignals(s.core.front.instr, insn);
    if insn.OpImm? || insn.OpReg? {
      AluCorrect(p, s, insn);
    } else if insn.Auipc? {
      RelativeTarget(p, s, insn);
    } else if insn.Csr? {
      CsrReadCorrect(p, s, insn);
    } else if insn.Lui? {
      UpperResult(s.core.front.instr, insn);
    }
  }

  lemma UpperResult(i: bv32, insn: Insn)
    requires Encodes(i, insn) && insn.Lui?
    ensures insn.imm == ImmU(i)
  {
  }

  lemma WaitsExactly(i: bv32, insn: Insn)
    requires Encodes(i, insn) && !insn.Illegal?
    ensures NeedToWait(i) == !Immediate(insn)
  {
    hide Encodes, IsAluImm, IsAluReg, IsLoad, IsStore, FuncM, UnitShiftOp, UnitMulOp, UnitDivOp;
    ClassSignals(i, insn);
    UnitSignals(i, insn);
  }
}
