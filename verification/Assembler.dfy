/** The encodings of RV32IM written out as an assembler lays them out, against which the decoder is
    exact: it reads back every instruction, and reads nothing else as one. Figures 2.3 and 2.4 and
    chapter 24 of the RISC-V Unprivileged ISA 20191213. */
module Assembler {
  import opened Isa
  import opened Shifter
  import Signals

  // The fields of a 32-bit instruction word, from the top.
  function Pack(f7: bv32, rs2: bv5, rs1: bv5, f3: bv32, rd: bv5, op: bv32): bv32
  {
    (f7 << 25) | ((rs2 as bv32) << 20) | ((rs1 as bv32) << 15) | (f3 << 12) | ((rd as bv32) << 7) | op
  }

  function Cut5(x: bv32): bv5 { (x & 31) as bv5 }

  // Where each format puts the bits of its immediate.
  function PackI(imm: bv32, rs1: bv5, f3: bv32, rd: bv5, op: bv32): bv32 {
    Pack((imm >> 5) & 0x7F, Cut5(imm), rs1, f3, rd, op)
  }
  function PackS(imm: bv32, rs2: bv5, rs1: bv5, f3: bv32, op: bv32): bv32 {
    Pack((imm >> 5) & 0x7F, rs2, rs1, f3, Cut5(imm), op)
  }
  function PackB(imm: bv32, rs2: bv5, rs1: bv5, f3: bv32, op: bv32): bv32 {
    Pack((((imm >> 12) & 1) << 6) | ((imm >> 5) & 0x3F), rs2, rs1, f3, Cut5((imm & 0x1E) | ((imm >> 11) & 1)), op)
  }
  function PackU(imm: bv32, rd: bv5, op: bv32): bv32 {
    Pack(imm >> 25, Cut5(imm >> 20), Cut5(imm >> 15), (imm >> 12) & 7, rd, op)
  }
  // imm[20|10:1|11|19:12]
  function PackJ(imm: bv32, rd: bv5, op: bv32): bv32 {
    Pack((((imm >> 20) & 1) << 6) | ((imm >> 5) & 0x3F), Cut5((imm & 0x1E) | ((imm >> 11) & 1)),
         Cut5(imm >> 15), (imm >> 12) & 7, rd, op)
  }

  // What the formats can hold.
  predicate Fits12(imm: bv32) { imm < 0x800 || imm >= 0xFFFF_F800 }
  predicate FitsB(imm: bv32) { imm & 1 == 0 && (imm < 0x1000 || imm >= 0xFFFF_F000) }
  predicate FitsJ(imm: bv32) { (imm < 0x10_0000 || imm >= 0xFFF0_0000) && imm & 1 == 0 }
  predicate FitsU(imm: bv32) { imm & 0xFFF == 0 }

  lemma PackFields(f7: bv32, rs2: bv5, rs1: bv5, f3: bv32, rd: bv5, op: bv32)
    requires f7 < 0x80 && f3 < 8 && op < 0x80
    ensures var i := Pack(f7, rs2, rs1, f3, rd, op);
      && Funct7(i) == f7 && Rs2(i) == rs2 && Rs1(i) == rs1 && Funct3(i) == f3 && Rd(i) == rd && i & 0x7F == op
  {
  }

  // A word is its fields.
  lemma Repack(i: bv32)
    ensures Pack(Funct7(i), Rs2(i), Rs1(i), Funct3(i), Rd(i), i & 0x7F) == i
    ensures Funct7(i) < 0x80 && Funct3(i) < 8 && i & 0x7F < 0x80
  {
  }

  // The bits of an immediate before sign extension.
  function RawI(i: bv32): bv32 { i >> 20 }
  function RawS(i: bv32): bv32 { ((i >> 25) << 5) | ((i >> 7) & 31) }
  function RawB(i: bv32): bv32 {
    ((i >> 31) << 12) | (((i >> 7) & 1) << 11) | (((i >> 25) & 0x3F) << 5) | (((i >> 8) & 15) << 1)
  }
  function RawJ(i: bv32): bv32 {
    ((i >> 31) << 20) | (((i >> 12) & 0xFF) << 12) | (((i >> 20) & 1) << 11) | (((i >> 21) & 0x3FF) << 1)
  }

  function Low12(x: bv32): bv32 { x & 0xFFF }
  function Low13(x: bv32): bv32 { x & 0x1FFE }
  function Low21(x: bv32): bv32 { x & 0x1F_FFFE }
  function Opcode(i: bv32): bv32 { i & 0x7F }

  lemma RawImmediates(i: bv32)
    ensures ImmI(i) == Extend(RawI(i), 0x800) && ImmS(i) == Extend(RawS(i), 0x800)
    ensures ImmB(i) == Extend(RawB(i), 0x1000) && ImmJ(i) == Extend(RawJ(i), 0x10_0000)
  {
    hide Extend;
  }

  lemma RawIPacked(imm: bv32, rs1: bv5, f3: bv32, rd: bv5, op: bv32)
    requires f3 < 8 && op < 0x80
    ensures RawI(PackI(imm, rs1, f3, rd, op)) == Low12(imm)
  {
  }

  lemma RawIRepacks(i: bv32)
    ensures PackI(RawI(i), Rs1(i), Funct3(i), Rd(i), Opcode(i)) == i
  {
  }

  lemma RawSPacked(imm: bv32, rs2: bv5, rs1: bv5, f3: bv32, op: bv32)
    requires f3 < 8 && op < 0x80
    ensures RawS(PackS(imm, rs2, rs1, f3, op)) == Low12(imm)
  {
  }

  lemma RawSRepacks(i: bv32)
    ensures PackS(RawS(i), Rs2(i), Rs1(i), Funct3(i), Opcode(i)) == i
  {
  }

  lemma RawBPacked(imm: bv32, rs2: bv5, rs1: bv5, f3: bv32, op: bv32)
    requires f3 < 8 && op < 0x80
    ensures RawB(PackB(imm, rs2, rs1, f3, op)) == Low13(imm)
  {
  }

  lemma RawBRepacks(i: bv32)
    ensures PackB(RawB(i), Rs2(i), Rs1(i), Funct3(i), Opcode(i)) == i
  {
  }

  lemma RawJPacked(imm: bv32, rd: bv5, op: bv32)
    requires op < 0x80
    ensures RawJ(PackJ(imm, rd, op)) == Low21(imm)
  {
  }

  lemma RawJRepacks(i: bv32)
    ensures PackJ(RawJ(i), Rd(i), Opcode(i)) == i
  {
  }

  lemma Extend12Up(imm: bv32)
    requires imm < 0x800
    ensures Extend(Low12(imm), 0x800) == imm
  {
  }

  lemma Extend12Down(imm: bv32)
    requires imm >= 0xFFFF_F800
    ensures Extend(Low12(imm), 0x800) == imm
  {
  }

  lemma Extend12Back(imm: bv32)
    requires Fits12(imm)
    ensures Extend(Low12(imm), 0x800) == imm
  {
    hide Extend, Low12;
    if imm < 0x800 {
      Extend12Up(imm);
    } else {
      Extend12Down(imm);
    }
  }

  lemma Extend12Fits(x: bv32)
    requires Low12(x) == x
    ensures Fits12(Extend(x, 0x800)) && Low12(Extend(x, 0x800)) == x
  {
  }

  lemma ExtendBUp(imm: bv32)
    requires imm < 0x1000 && imm & 1 == 0
    ensures Extend(Low13(imm), 0x1000) == imm
  {
  }

  lemma ExtendBDown(imm: bv32)
    requires imm >= 0xFFFF_F000 && imm & 1 == 0
    ensures Extend(Low13(imm), 0x1000) == imm
  {
  }

  lemma ExtendBBack(imm: bv32)
    requires FitsB(imm)
    ensures Extend(Low13(imm), 0x1000) == imm
  {
    hide Extend, Low13;
    if imm < 0x1000 {
      ExtendBUp(imm);
    } else {
      ExtendBDown(imm);
    }
  }

  lemma ExtendBFits(x: bv32)
    requires Low13(x) == x
    ensures FitsB(Extend(x, 0x1000)) && Low13(Extend(x, 0x1000)) == x
  {
  }

  lemma ExtendJUp(imm: bv32)
    requires imm < 0x10_0000 && imm & 1 == 0
    ensures Extend(Low21(imm), 0x10_0000) == imm
  {
  }

  lemma ExtendJDown(imm: bv32)
    requires imm >= 0xFFF0_0000 && imm & 1 == 0
    ensures Extend(Low21(imm), 0x10_0000) == imm
  {
  }

  lemma ExtendJBack(imm: bv32)
    requires FitsJ(imm)
    ensures Extend(Low21(imm), 0x10_0000) == imm
  {
    hide Extend, Low21;
    if imm < 0x10_0000 {
      ExtendJUp(imm);
    } else {
      ExtendJDown(imm);
    }
  }

  lemma ExtendJFits(x: bv32)
    requires Low21(x) == x
    ensures FitsJ(Extend(x, 0x10_0000)) && Low21(Extend(x, 0x10_0000)) == x
  {
  }

  lemma RawIRange(i: bv32)
    ensures Low12(RawI(i)) == RawI(i)
  {
  }

  lemma RawSRange(i: bv32)
    ensures Low12(RawS(i)) == RawS(i)
  {
  }

  lemma RawBRange(i: bv32)
    ensures Low13(RawB(i)) == RawB(i)
  {
  }

  lemma RawJRange(i: bv32)
    ensures Low21(RawJ(i)) == RawJ(i)
  {
  }

  // Packing looks at no other bits.
  lemma Packing(imm: bv32, rs2: bv5, rs1: bv5, f3: bv32, rd: bv5, op: bv32)
    ensures PackI(imm, rs1, f3, rd, op) == PackI(Low12(imm), rs1, f3, rd, op)
    ensures PackS(imm, rs2, rs1, f3, op) == PackS(Low12(imm), rs2, rs1, f3, op)
    ensures PackB(imm, rs2, rs1, f3, op) == PackB(Low13(imm), rs2, rs1, f3, op)
    ensures PackJ(imm, rd, op) == PackJ(Low21(imm), rd, op)
  {
  }

  lemma UpperBits(imm: bv32, rd: bv5, op: bv32, i: bv32)
    requires FitsU(imm) && op < 0x80
    ensures ImmU(PackU(imm, rd, op)) == imm
    ensures FitsU(ImmU(i)) && PackU(ImmU(i), Rd(i), Opcode(i)) == i
  {
  }

  // Packed immediates are read back.
  lemma Immediates(imm: bv32, rs2: bv5, rs1: bv5, f3: bv32, rd: bv5, op: bv32)
    requires f3 < 8 && op < 0x80
    ensures Fits12(imm) ==> ImmI(PackI(imm, rs1, f3, rd, op)) == imm && ImmS(PackS(imm, rs2, rs1, f3, op)) == imm
    ensures FitsB(imm) ==> ImmB(PackB(imm, rs2, rs1, f3, op)) == imm
    ensures FitsJ(imm) ==> ImmJ(PackJ(imm, rd, op)) == imm
    ensures FitsU(imm) ==> ImmU(PackU(imm, rd, op)) == imm
  {
    hide *;
    RawIPacked(imm, rs1, f3, rd, op);
    RawSPacked(imm, rs2, rs1, f3, op);
    RawBPacked(imm, rs2, rs1, f3, op);
    RawJPacked(imm, rd, op);
    RawImmediates(PackI(imm, rs1, f3, rd, op));
    RawImmediates(PackS(imm, rs2, rs1, f3, op));
    RawImmediates(PackB(imm, rs2, rs1, f3, op));
    RawImmediates(PackJ(imm, rd, op));
    if Fits12(imm) { Extend12Back(imm); }
    if FitsB(imm) { ExtendBBack(imm); }
    if FitsJ(imm) { ExtendJBack(imm); }
    if FitsU(imm) { UpperBits(imm, rd, op, 0); }
  }

  // And what is read packs to the word it was read from.
  lemma Reimmediate(i: bv32)
    ensures Fits12(ImmI(i)) && PackI(ImmI(i), Rs1(i), Funct3(i), Rd(i), Opcode(i)) == i
    ensures Fits12(ImmS(i)) && PackS(ImmS(i), Rs2(i), Rs1(i), Funct3(i), Opcode(i)) == i
    ensures FitsB(ImmB(i)) && PackB(ImmB(i), Rs2(i), Rs1(i), Funct3(i), Opcode(i)) == i
    ensures FitsJ(ImmJ(i)) && PackJ(ImmJ(i), Rd(i), Opcode(i)) == i
    ensures FitsU(ImmU(i)) && PackU(ImmU(i), Rd(i), Opcode(i)) == i
  {
    hide *;
    RawImmediates(i);
    RawIRange(i);
    RawSRange(i);
    RawBRange(i);
    RawJRange(i);
    Extend12Fits(RawI(i));
    Extend12Fits(RawS(i));
    ExtendBFits(RawB(i));
    ExtendJFits(RawJ(i));
    Packing(ImmI(i), 0, Rs1(i), Funct3(i), Rd(i), Opcode(i));
    Packing(ImmS(i), Rs2(i), Rs1(i), Funct3(i), 0, Opcode(i));
    Packing(ImmB(i), Rs2(i), Rs1(i), Funct3(i), 0, Opcode(i));
    Packing(ImmJ(i), 0, 0, 0, Rd(i), Opcode(i));
    RawIRepacks(i);
    RawSRepacks(i);
    RawBRepacks(i);
    RawJRepacks(i);
    ZeroFits();
    UpperBits(0, 0, 0, i);
  }

  lemma ZeroFits()
    ensures FitsU(0)
  {
  }

  function AluCode(op: AluOp): bv32
  {
    match op
    case Add => 0
    case Sub => 0
    case Shifting(shift) => ShiftCode(shift)
    case Slt => 2
    case Sltu => 3
    case Xor => 4
    case Or => 6
    case And => 7
  }

  function ShiftCode(op: ShiftOp): bv32 { if op.Sll? then 1 else 5 }

  // 0x20 for SUB and the arithmetic right shifts.
  function AluHigh(op: AluOp): bv32 { if op.Sub? || op == Shifting(Sra) then 0x20 else 0 }
  function ShiftHigh(op: ShiftOp): bv32 { if op.Sra? then 0x20 else 0 }

  // The instructions the encodings have room for.
  predicate Encodable(insn: Insn)
  {
    match insn
    case Lui(rd, imm) => FitsU(imm)
    case Auipc(rd, imm) => FitsU(imm)
    case Jal(rd, imm) => FitsJ(imm)
    case Jalr(rd, rs1, imm) => Fits12(imm)
    case Branch(cond, rs1, rs2, imm) => FitsB(imm)
    case Load(width, unsigned, rd, rs1, imm) => Fits12(imm) && !(width.Full? && unsigned)
    case Store(width, rs1, rs2, imm) => Fits12(imm)
    case OpImm(op, rd, rs1, imm) => Fits12(imm) && !op.Sub? && !op.Shifting?
    case Illegal => false
    case _ => true
  }

  function SourceField(source: CsrSource): bv5 { match source case FromReg(r) => r case FromImm(u) => u }

  function Assemble(insn: Insn): bv32
  {
    match insn
    case Lui(rd, imm) => PackU(imm, rd, 0x37)
    case Auipc(rd, imm) => PackU(imm, rd, 0x17)
    case Jal(rd, imm) => PackJ(imm, rd, 0x6F)
    case Jalr(rd, rs1, imm) => PackI(imm, rs1, 0, rd, 0x67)
    case Branch(cond, rs1, rs2, imm) => PackB(imm, rs2, rs1, Signals.CondCode(cond), 0x63)
    case Load(width, unsigned, rd, rs1, imm) =>
      PackI(imm, rs1, Signals.WidthCode(width) | (if unsigned then 4 else 0), rd, 0x03)
    case Store(width, rs1, rs2, imm) => PackS(imm, rs2, rs1, Signals.WidthCode(width), 0x23)
    case OpImm(op, rd, rs1, imm) => PackI(imm, rs1, AluCode(op), rd, 0x13)
    case ShiftImm(op, rd, rs1, amount) => Pack(ShiftHigh(op), amount, rs1, ShiftCode(op), rd, 0x13)
    case OpReg(op, rd, rs1, rs2) => Pack(AluHigh(op), rs2, rs1, AluCode(op), rd, 0x33)
    case MulReg(op, rd, rs1, rs2) => Pack(1, rs2, rs1, Signals.MulCode(op), rd, 0x33)
    case DivReg(op, rd, rs1, rs2) => Pack(1, rs2, rs1, Signals.DivCode(op), rd, 0x33)
    case Csr(op, rd, source, name) =>
      PackI(Signals.CsrCode(name), SourceField(source), Signals.CsrOpCode(op) | (if source.FromImm? then 4 else 0), rd,
            0x73)
    case Ecall => 0x0000_0073
    case Ebreak => 0x0010_0073
    case Mret => 0x3020_0073
    case Wfi => 0x1050_0073
    case Fence => 0x0000_000F
    case Illegal => 0
  }

  lemma PackIFields(imm: bv32, rs1: bv5, f3: bv32, rd: bv5, op: bv32)
    requires f3 < 8 && op < 0x80
    ensures var i := PackI(imm, rs1, f3, rd, op);
      && Rs1(i) == rs1 && Funct3(i) == f3 && Rd(i) == rd && i & 0x7F == op
      && Rs2(i) == Cut5(imm) && Funct7(i) == (imm >> 5) & 0x7F
  {
    hide Pack, Rd, Rs1, Rs2, Funct3, Funct7;
    Seven(imm);
    PackFields((imm >> 5) & 0x7F, Cut5(imm), rs1, f3, rd, op);
  }

  lemma Seven(imm: bv32)
    ensures (imm >> 5) & 0x7F < 0x80
  {
  }

  lemma PackSFields(imm: bv32, rs2: bv5, rs1: bv5, f3: bv32, op: bv32)
    requires f3 < 8 && op < 0x80
    ensures var i := PackS(imm, rs2, rs1, f3, op); Rs2(i) == rs2 && Rs1(i) == rs1 && Funct3(i) == f3 && i & 0x7F == op
    ensures var i := PackB(imm, rs2, rs1, f3, op); Rs2(i) == rs2 && Rs1(i) == rs1 && Funct3(i) == f3 && i & 0x7F == op
  {
    hide Pack, Rd, Rs1, Rs2, Funct3, Funct7;
    Seven(imm);
    SevenB(imm);
    PackFields((imm >> 5) & 0x7F, rs2, rs1, f3, Cut5(imm), op);
    PackFields((((imm >> 12) & 1) << 6) | ((imm >> 5) & 0x3F), rs2, rs1, f3,
               Cut5((imm & 0x1E) | ((imm >> 11) & 1)), op);
  }

  lemma SevenB(imm: bv32)
    ensures (((imm >> 12) & 1) << 6) | ((imm >> 5) & 0x3F) < 0x80
  {
  }

  lemma PackUFields(imm: bv32, rd: bv5, op: bv32)
    requires op < 0x80
    ensures Rd(PackU(imm, rd, op)) == rd && PackU(imm, rd, op) & 0x7F == op
    ensures Rd(PackJ(imm, rd, op)) == rd && PackJ(imm, rd, op) & 0x7F == op
  {
  }

  lemma DecodesUpper(insn: Insn)
    requires Encodable(insn) && (insn.Lui? || insn.Auipc? || insn.Jal? || insn.Jalr?)
    ensures Decode32(Assemble(insn)) == insn
  {
    hide Fits12, FitsU, FitsJ, PackI, PackU, PackJ, Rd, Rs1, Rs2, Funct3, Funct7, ImmI, ImmU, ImmJ, Cut5;
    PackUFields(insn.imm, insn.rd, if insn.Lui? then 0x37 else if insn.Auipc? then 0x17 else 0x6F);
    if insn.Jalr? {
      PackIFields(insn.imm, insn.rs1, 0, insn.rd, 0x67);
      Immediates(insn.imm, 0, insn.rs1, 0, insn.rd, 0x67);
    } else {
      Immediates(insn.imm, 0, 0, 0, insn.rd, if insn.Lui? then 0x37 else if insn.Auipc? then 0x17 else 0x6F);
    }
  }

  lemma DecodesLoad(insn: Insn)
    requires Encodable(insn) && insn.Load?
    ensures Decode32(Assemble(insn)) == insn
  {
    hide Fits12, PackI, Rd, Rs1, Rs2, Funct3, Funct7, ImmI, Cut5;
    var f3 := Signals.WidthCode(insn.width) | (if insn.unsigned then 4 else 0);
    PackIFields(insn.imm, insn.rs1, f3, insn.rd, 0x03);
    Immediates(insn.imm, 0, insn.rs1, f3, insn.rd, 0x03);
  }

  lemma DecodesStore(insn: Insn)
    requires Encodable(insn) && insn.Store?
    ensures Decode32(Assemble(insn)) == insn
  {
    hide Fits12, PackS, Rd, Rs1, Rs2, Funct3, Funct7, ImmS, Cut5;
    PackSFields(insn.imm, insn.rs2, insn.rs1, Signals.WidthCode(insn.width), 0x23);
    Immediates(insn.imm, insn.rs2, insn.rs1, Signals.WidthCode(insn.width), 0, 0x23);
  }

  lemma DecodesBranch(insn: Insn)
    requires Encodable(insn) && insn.Branch?
    ensures Decode32(Assemble(insn)) == insn
  {
    hide FitsB, PackB, Rd, Rs1, Rs2, Funct3, Funct7, ImmB, Cut5;
    PackSFields(insn.imm, insn.rs2, insn.rs1, Signals.CondCode(insn.cond), 0x63);
    Immediates(insn.imm, insn.rs2, insn.rs1, Signals.CondCode(insn.cond), 0, 0x63);
  }

  lemma AluForth(op: AluOp)
    requires !op.Sub? && !op.Shifting?
    ensures AluOf(AluCode(op), false) == op && AluCode(op) < 8 && AluCode(op) != 1 && AluCode(op) != 5
  {
  }

  lemma DecodesOpImm(insn: Insn)
    requires Encodable(insn) && insn.OpImm?
    ensures Decode32(Assemble(insn)) == insn
  {
    hide Fits12, PackI, Rd, Rs1, Rs2, Funct3, Funct7, ImmI, Cut5, AluOf, AluCode;
    AluForth(insn.op);
    PackIFields(insn.imm, insn.rs1, AluCode(insn.op), insn.rd, 0x13);
    Immediates(insn.imm, 0, insn.rs1, AluCode(insn.op), insn.rd, 0x13);
  }

  lemma DecodesShiftImm(insn: Insn)
    requires insn.ShiftImm?
    ensures Decode32(Assemble(insn)) == insn
  {
    hide Pack, Rd, Rs1, Rs2, Funct3, Funct7, ImmI;
    PackFields(ShiftHigh(insn.shiftOp), insn.amount, insn.rs1, ShiftCode(insn.shiftOp), insn.rd, 0x13);
  }

  lemma DecodesOpReg(insn: Insn)
    requires insn.OpReg?
    ensures Decode32(Assemble(insn)) == insn
  {
    hide Pack, Rd, Rs1, Rs2, Funct3, Funct7;
    PackFields(AluHigh(insn.op), insn.rs2, insn.rs1, AluCode(insn.op), insn.rd, 0x33);
  }

  lemma DecodesMulDiv(insn: Insn)
    requires insn.MulReg? || insn.DivReg?
    ensures Decode32(Assemble(insn)) == insn
  {
    hide Pack, Rd, Rs1, Rs2, Funct3, Funct7;
    PackFields(1, insn.rs2, insn.rs1, if insn.MulReg? then Signals.MulCode(insn.mulOp) else Signals.DivCode(insn.divOp),
               insn.rd, 0x33);
  }

  lemma DecodesCsr(insn: Insn)
    requires insn.Csr?
    ensures Decode32(Assemble(insn)) == insn
  {
    hide PackI, Rd, Rs1, Rs2, Funct3, Funct7, Cut5;
    var f3 := Signals.CsrOpCode(insn.csrOp) | (if insn.source.FromImm? then 4 else 0);
    PackIFields(Signals.CsrCode(insn.csr), SourceField(insn.source), f3, insn.rd, 0x73);
    RawIPacked(Signals.CsrCode(insn.csr), SourceField(insn.source), f3, insn.rd, 0x73);
    PlainSystem();
  }

  lemma PlainSystem()
    ensures Funct3(0x0000_0073) == 0 && Funct3(0x0010_0073) == 0 && Funct3(0x3020_0073) == 0 && Funct3(0x1050_0073) == 0
  {
  }

  // The decoder undoes the assembler.
  lemma DecodesAll(insn: Insn)
    requires Encodable(insn)
    ensures Decode32(Assemble(insn)) == insn
  {
    hide Decode32, Assemble;
    if insn.Lui? || insn.Auipc? || insn.Jal? || insn.Jalr? {
      DecodesUpper(insn);
    } else if insn.Load? {
      DecodesLoad(insn);
    } else if insn.Store? {
      DecodesStore(insn);
    } else if insn.Branch? {
      DecodesBranch(insn);
    } else if insn.Csr? {
      DecodesCsr(insn);
    } else if insn.OpImm? {
      DecodesOpImm(insn);
    } else if insn.ShiftImm? {
      DecodesShiftImm(insn);
    } else if insn.OpReg? {
      DecodesOpReg(insn);
    } else if insn.MulReg? || insn.DivReg? {
      DecodesMulDiv(insn);
    } else {
      DecodesPlain(insn);
    }
  }

  lemma DecodesPlain(insn: Insn)
    requires insn.Ecall? || insn.Ebreak? || insn.Mret? || insn.Wfi? || insn.Fence?
    ensures Decode32(Assemble(insn)) == insn
  {
  }

  // A word that decodes to an instruction other than FENCE is the one it assembles to. FENCE
  // leaves the fields of its word open.
  predicate Back(i: bv32)
  {
    var insn := Decode32(i);
    insn.Illegal? || insn.Fence? || (Encodable(insn) && Assemble(insn) == i)
  }

  lemma OpcodeIs(i: bv32)
    ensures Opcode(i) == i & 0x7F
  {
  }

  lemma BackUpper(i: bv32)
    requires Opcode(i) == 0x37 || Opcode(i) == 0x17 || Opcode(i) == 0x6F || Opcode(i) == 0x67
    ensures Back(i)
  {
    hide Fits12, FitsU, FitsJ, PackI, PackU, PackJ, Rd, Rs1, Rs2, Funct3, Funct7, ImmI, ImmU, ImmJ, Opcode;
    OpcodeIs(i);
    Reimmediate(i);
  }

  lemma BackMemory(i: bv32)
    requires Opcode(i) == 0x03 || Opcode(i) == 0x23 || Opcode(i) == 0x63
    ensures Back(i)
  {
    hide Fits12, FitsB, PackI, PackS, PackB, Rd, Rs1, Rs2, Funct3, Funct7, ImmI, ImmS, ImmB, Opcode;
    OpcodeIs(i);
    Reimmediate(i);
    Signals.FunctRange(i);
  }

  lemma BackOpImm(i: bv32)
    requires Opcode(i) == 0x13 && Funct3(i) != 1 && Funct3(i) != 5
    ensures Back(i)
  {
    hide Fits12, PackI, Pack, Rd, Rs1, Rs2, Funct3, Funct7, ImmI, Opcode;
    OpcodeIs(i);
    Reimmediate(i);
    Signals.FunctRange(i);
  }

  lemma BackShiftImm(i: bv32)
    requires Opcode(i) == 0x13 && (Funct3(i) == 1 || Funct3(i) == 5)
    ensures Back(i)
  {
    hide Pack, Rd, Rs1, Rs2, Funct3, Funct7, Opcode;
    OpcodeIs(i);
    Repack(i);
  }

  lemma AluBack(f: bv32)
    requires f < 8
    ensures AluCode(AluOf(f, false)) == f && AluHigh(AluOf(f, false)) == 0
    ensures f == 0 || f == 5 ==> AluCode(AluOf(f, true)) == f && AluHigh(AluOf(f, true)) == 0x20
  {
  }

  lemma RegisterForms(i: bv32)
    requires Opcode(i) == 0x33
    ensures Decode32(i) == DecodeOpReg(i)
  {
    hide DecodeOpReg;
  }

  lemma BackOpReg(i: bv32)
    requires Opcode(i) == 0x33 && Funct7(i) != 1
    ensures Back(i)
  {
    hide Pack, Rd, Rs1, Rs2, Funct3, Funct7, Opcode, Decode32, AluCode, AluHigh, AluOf;
    OpcodeIs(i);
    RegisterForms(i);
    Repack(i);
    AluBack(Funct3(i));
  }

  lemma BackMulDiv(i: bv32)
    requires Opcode(i) == 0x33 && Funct7(i) == 1
    ensures Back(i)
  {
    hide Pack, Rd, Rs1, Rs2, Funct3, Funct7, Opcode, Decode32;
    OpcodeIs(i);
    RegisterForms(i);
    Repack(i);
  }

  lemma BackSystem(i: bv32)
    requires Opcode(i) == 0x73
    ensures Back(i)
  {
    hide Fits12, PackI, Pack, Rd, Rs1, Rs2, Funct3, Funct7, ImmI, Opcode;
    OpcodeIs(i);
    RawIRepacks(i);
    Signals.FunctRange(i);
  }

  // The decoder reads nothing else as an instruction.
  lemma DecodesOnly(i: bv32)
    ensures Back(i)
    ensures Decode32(i).Fence? <==> Opcode(i) == 0x0F && Funct3(i) == 0 && Rd(i) == 0
  {
    hide Decode32, Assemble, Encodable, Opcode, Rd, Funct3, Funct7;
    if Opcode(i) == 0x37 || Opcode(i) == 0x17 || Opcode(i) == 0x6F || Opcode(i) == 0x67 {
      BackUpper(i);
    } else if Opcode(i) == 0x03 || Opcode(i) == 0x23 || Opcode(i) == 0x63 {
      BackMemory(i);
    } else if Opcode(i) == 0x13 {
      if Funct3(i) == 1 || Funct3(i) == 5 {
        BackShiftImm(i);
      } else {
        BackOpImm(i);
      }
    } else if Opcode(i) == 0x33 {
      if Funct7(i) == 1 {
        BackMulDiv(i);
      } else {
        BackOpReg(i);
      }
    } else if Opcode(i) == 0x73 {
      BackSystem(i);
    } else {
      OtherOpcode(i);
    }
    FenceExactly(i);
  }

  lemma OtherOpcode(i: bv32)
    requires Opcode(i) != 0x37 && Opcode(i) != 0x17 && Opcode(i) != 0x6F && Opcode(i) != 0x67 && Opcode(i) != 0x03
    requires Opcode(i) != 0x23 && Opcode(i) != 0x63 && Opcode(i) != 0x13 && Opcode(i) != 0x33 && Opcode(i) != 0x73
    ensures Decode32(i).Illegal? || Decode32(i).Fence?
  {
    hide Rd, Funct3;
  }

  lemma FenceExactly(i: bv32)
    ensures Decode32(i).Fence? <==> Opcode(i) == 0x0F && Funct3(i) == 0 && Rd(i) == 0
  {
    hide Rd, Rs1, Rs2, Funct3, Funct7, ImmI, ImmS, ImmB, ImmU, ImmJ, AluOf;
  }
}
