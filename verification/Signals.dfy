/** The core's decode signals agree with the meaning of the instruction register: it looks at
    bits 6:2 and single funct bits where the ISA's tables give whole fields. */
module Signals {
  import opened Isa
  import opened Core
  import opened MulDivSpec
  import Shifter

  // The fields an instruction was decoded from.
  predicate Encodes(i: bv32, insn: Insn)
  {
    match insn
    case Lui(rd, imm) => i & 0x7F == 0x37 && rd == Rd(i) && imm == ImmU(i)
    case Auipc(rd, imm) => i & 0x7F == 0x17 && rd == Rd(i) && imm == ImmU(i)
    case Jal(rd, imm) => i & 0x7F == 0x6F && rd == Rd(i) && imm == ImmJ(i)
    case Jalr(rd, rs1, imm) => i & 0x7F == 0x67 && rd == Rd(i) && rs1 == Rs1(i) && imm == ImmI(i)
    case Branch(cond, rs1, rs2, imm) =>
      && i & 0x7F == 0x63 && rs1 == Rs1(i) && rs2 == Rs2(i) && imm == ImmB(i)
      && Funct3(i) == CondCode(cond)
    case Load(width, unsigned, rd, rs1, imm) =>
      && i & 0x7F == 0x03 && rd == Rd(i) && rs1 == Rs1(i) && imm == ImmI(i)
      && Funct3(i) & 3 == WidthCode(width) && unsigned == (Funct3(i) & 4 != 0)
    case Store(width, rs1, rs2, imm) =>
      && i & 0x7F == 0x23 && rs1 == Rs1(i) && rs2 == Rs2(i) && imm == ImmS(i) && Funct3(i) == WidthCode(width)
    case OpImm(op, rd, rs1, imm) =>
      && i & 0x7F == 0x13 && rd == Rd(i) && rs1 == Rs1(i) && imm == ImmI(i)
      && Funct3(i) != 1 && Funct3(i) != 5 && op == AluOf(Funct3(i), false)
    case ShiftImm(op, rd, rs1, amount) =>
      && i & 0x7F == 0x13 && rd == Rd(i) && rs1 == Rs1(i) && amount == Rs2(i) && ShiftCode(i, op)
    case OpReg(op, rd, rs1, rs2) =>
      && i & 0x7F == 0x33 && rd == Rd(i) && rs1 == Rs1(i) && rs2 == Rs2(i)
      && (Funct7(i) == 0 || (Funct7(i) == 0x20 && (Funct3(i) == 0 || Funct3(i) == 5)))
      && op == AluOf(Funct3(i), Funct7(i) == 0x20)
    case MulReg(op, rd, rs1, rs2) =>
      && i & 0x7F == 0x33 && rd == Rd(i) && rs1 == Rs1(i) && rs2 == Rs2(i) && Funct7(i) == 1
      && Funct3(i) == MulCode(op)
    case DivReg(op, rd, rs1, rs2) =>
      && i & 0x7F == 0x33 && rd == Rd(i) && rs1 == Rs1(i) && rs2 == Rs2(i) && Funct7(i) == 1
      && Funct3(i) == DivCode(op)
    case Csr(op, rd, source, name) =>
      && i & 0x7F == 0x73 && rd == Rd(i) && source == (if Funct3(i) & 4 != 0 then FromImm(Rs1(i)) else FromReg(Rs1(i)))
      && Funct3(i) & 3 == CsrOpCode(op)
      && i >> 20 == CsrCode(name)
    case Ecall => i == 0x0000_0073
    case Ebreak => i == 0x0010_0073
    case Mret => i == 0x3020_0073
    case Wfi => i == 0x1050_0073
    case Fence => i & 0x7F == 0x0F && Rd(i) == 0
    case Illegal => true
  }

  function CondCode(cond: Cond): bv32 {
    match cond case Eq => 0 case Ne => 1 case Lt => 4 case Ge => 5 case Ltu => 6 case Geu => 7
  }
  function MulCode(op: MulOp): bv32 { match op case Mul => 0 case Mulh => 1 case Mulhsu => 2 case Mulhu => 3 }
  function DivCode(op: DivOp): bv32 { match op case Div => 4 case Divu => 5 case Rem => 6 case Remu => 7 }
  function CsrOpCode(op: CsrOp): bv32 { match op case Rw => 1 case Rs => 2 case Rc => 3 }
  function CsrCode(name: CsrName): bv32 { match name case Mstatus => 0x300 case Mepc => 0x341 case Mcause => 0x342 }
  function WidthCode(w: Width): bv32 { match w case Byte => 0 case Half => 1 case Full => 2 }

  predicate ShiftCode(i: bv32, op: Shifter.ShiftOp)
  {
    match op
    case Sll => Funct3(i) == 1 && Funct7(i) == 0
    case Srl => Funct3(i) == 5 && Funct7(i) == 0
    case Sra => Funct3(i) == 5 && Funct7(i) == 0x20
  }

  lemma FunctRange(i: bv32)
    ensures Funct3(i) < 8 && Funct7(i) < 0x80
  {
  }

  lemma BranchInverse(i: bv32)
    requires i & 0x7F == 0x63
    ensures Encodes(i, DecodeBranch(i))
  {
    hide Rd, Rs1, Rs2, ImmI, ImmS, ImmB, Funct3, Funct7;
    FunctRange(i);
  }

  lemma LoadInverse(i: bv32)
    requires i & 0x7F == 0x03
    ensures Encodes(i, DecodeLoad(i))
  {
    hide Rd, Rs1, Rs2, ImmI, ImmS, ImmB, Funct3, Funct7;
    FunctRange(i);
  }

  lemma StoreInverse(i: bv32)
    requires i & 0x7F == 0x23
    ensures Encodes(i, DecodeStore(i))
  {
    hide Rd, Rs1, Rs2, ImmI, ImmS, ImmB, Funct3, Funct7;
    FunctRange(i);
  }

  lemma OpImmInverse(i: bv32)
    requires i & 0x7F == 0x13
    ensures Encodes(i, DecodeOpImm(i))
  {
    hide Rd, Rs1, Rs2, ImmI, ImmS, ImmB, Funct3, Funct7, AluOf;
    FunctRange(i);
  }

  lemma OpRegInverse(i: bv32)
    requires i & 0x7F == 0x33
    ensures Encodes(i, DecodeOpReg(i))
  {
    hide Rd, Rs1, Rs2, ImmI, ImmS, ImmB, Funct3, Funct7, AluOf;
    FunctRange(i);
  }

  lemma SystemInverse(i: bv32)
    requires i & 0x7F == 0x73
    ensures Encodes(i, DecodeSystem(i))
  {
    hide Rd, Rs1, Rs2, ImmI, ImmS, ImmB, Funct3, Funct7;
    FunctRange(i);
  }

  lemma Inverse(i: bv32)
    ensures Encodes(i, Decode32(i))
  {
    hide Rd, Rs1, Rs2, ImmI, ImmU, ImmJ, Funct3, DecodeBranch, DecodeLoad, DecodeStore, DecodeOpImm, DecodeOpReg,
      DecodeSystem;
    var opcode := i & 0x7F;
    if opcode == 0x63 {
      BranchInverse(i);
    } else if opcode == 0x03 {
      LoadInverse(i);
    } else if opcode == 0x23 {
      StoreInverse(i);
    } else if opcode == 0x13 {
      OpImmInverse(i);
    } else if opcode == 0x33 {
      OpRegInverse(i);
    } else if opcode == 0x73 {
      SystemInverse(i);
    }
  }

  // The core's view of the opcode and funct bits.
  lemma OpcodeBits(i: bv32)
    ensures Op5(i) == (i & 0x7F) >> 2
    ensures (i >> 3) & 1 == ((i & 0x7F) >> 3) & 1 && (i >> 4) & 1 == ((i & 0x7F) >> 4) & 1
    ensures (i >> 5) & 1 == ((i & 0x7F) >> 5) & 1
  {
  }

  lemma FunctBits(i: bv32)
    ensures (i >> 12) & 1 == Funct3(i) & 1 && (i >> 13) & 1 == (Funct3(i) >> 1) & 1
    ensures (i >> 14) & 1 == (Funct3(i) >> 2) & 1
    ensures (i >> 12) & 3 == Funct3(i) & 3
    ensures (i >> 25) & 1 == Funct7(i) & 1 && (i >> 30) & 1 == (Funct7(i) >> 5) & 1
  {
  }

  // The class signals single out the instruction kinds.
  lemma ClassSignals(i: bv32, insn: Insn)
    requires Encodes(i, insn) && !insn.Illegal?
    ensures IsJal(i) == insn.Jal? && IsJalr(i) == insn.Jalr? && IsBranch(i) == insn.Branch? && IsLui(i) == insn.Lui?
    ensures IsAuipc(i) == insn.Auipc? && IsLoad(i) == insn.Load? && IsStore(i) == insn.Store?
    ensures IsAluImm(i) == (insn.OpImm? || insn.ShiftImm?)
    ensures IsAluReg(i) == (insn.OpReg? || insn.MulReg? || insn.DivReg?)
    ensures IsSystem(i) == (insn.Csr? || insn.Ecall? || insn.Ebreak? || insn.Mret? || insn.Wfi?)
  {
    hide Rd, Rs1, Rs2, ImmI, ImmS, ImmB, ImmU, ImmJ, Funct3, Funct7, AluOf, ShiftCode;
    OpcodeBits(i);
  }

  lemma SystemSignals(i: bv32, insn: Insn)
    requires Encodes(i, insn) && !insn.Illegal?
    ensures IsMret(i) == insn.Mret? && IsWfi(i) == insn.Wfi? && IsEnvTrap(i) == (insn.Ecall? || insn.Ebreak?)
    ensures IsEcall(i) == insn.Ecall?
    ensures insn.Csr? ==> Funct3(i) != 0
    ensures insn.Ecall? || insn.Ebreak? || insn.Mret? || insn.Wfi? ==> Funct3(i) == 0 && Rd(i) == 0
  {
    hide ImmI, ImmS, ImmB, ImmU, ImmJ, Funct7, AluOf, ShiftCode;
    OpcodeBits(i);
  }

  lemma UnitSignals(i: bv32, insn: Insn)
    requires Encodes(i, insn) && !insn.Illegal?
    ensures IsDivide(i) == insn.DivReg? && IsMul(i) == insn.MulReg?
    ensures insn.OpReg? ==> !FuncM(i)
    ensures (insn.ShiftImm? || (insn.OpReg? && insn.op.Shifting?)) ==> IsShift(i)
    ensures insn.OpImm? || (insn.OpReg? && !insn.op.Shifting?) ==> !IsShift(i)
    ensures insn.ShiftImm? ==> UnitShiftOp(i) == insn.shiftOp
    ensures insn.OpReg? && insn.op.Shifting? ==> UnitShiftOp(i) == insn.op.shift
    ensures insn.MulReg? ==> UnitMulOp(i) == insn.mulOp
    ensures insn.DivReg? ==> UnitDivOp(i) == insn.divOp
  {
    hide Rd, Rs1, Rs2, ImmI, ImmS, ImmB, ImmU, ImmJ, Funct3, Funct7;
    OpcodeBits(i);
    FunctBits(i);
    FunctRange(i);
  }
}
