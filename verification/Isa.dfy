/** RV32IMC instructions and what their encodings mean: chapters 2, 7, 9 and 16 of the RISC-V
    Unprivileged ISA 20191213, with the machine-mode CSRs of this core. */
module Isa {
  import opened MulDivSpec
  import opened Shifter

  datatype AluOp = Add | Sub | Shifting(shift: ShiftOp) | Slt | Sltu | Xor | Or | And
  datatype Cond = Eq | Ne | Lt | Ge | Ltu | Geu
  datatype Width = Byte | Half | Full
  datatype CsrOp = Rw | Rs | Rc
  datatype CsrSource = FromReg(r: bv5) | FromImm(u: bv5)
  datatype CsrName = Mstatus | Mepc | Mcause

  // Immediates are already sign-extended to 32 bits.
  datatype Insn =
    | Lui(rd: bv5, imm: bv32)
    | Auipc(rd: bv5, imm: bv32)
    | Jal(rd: bv5, imm: bv32)
    | Jalr(rd: bv5, rs1: bv5, imm: bv32)
    | Branch(cond: Cond, rs1: bv5, rs2: bv5, imm: bv32)
    | Load(width: Width, unsigned: bool, rd: bv5, rs1: bv5, imm: bv32)
    | Store(width: Width, rs1: bv5, rs2: bv5, imm: bv32)
    | OpImm(op: AluOp, rd: bv5, rs1: bv5, imm: bv32)
    | ShiftImm(shiftOp: ShiftOp, rd: bv5, rs1: bv5, amount: bv5)
    | OpReg(op: AluOp, rd: bv5, rs1: bv5, rs2: bv5)
    | MulReg(mulOp: MulOp, rd: bv5, rs1: bv5, rs2: bv5)
    | DivReg(divOp: DivOp, rd: bv5, rs1: bv5, rs2: bv5)
    | Csr(csrOp: CsrOp, rd: bv5, source: CsrSource, csr: CsrName)
    | Ecall
    | Ebreak
    | Mret
    | Wfi
    | Fence
    | Illegal

  // Instruction fields.
  function Rd(i: bv32): bv5 { ((i >> 7) & 31) as bv5 }
  function Rs1(i: bv32): bv5 { ((i >> 15) & 31) as bv5 }
  function Rs2(i: bv32): bv5 { ((i >> 20) & 31) as bv5 }
  function Funct3(i: bv32): bv32 { (i >> 12) & 7 }
  function Funct7(i: bv32): bv32 { i >> 25 }

  // Sign extension of a field whose top bit has weight top.
  function Extend(x: bv32, top: bv32): bv32 { if x & top != 0 then x | !(top - 1) else x }

  // Section 2.3, figure 2.4.
  function ImmI(i: bv32): bv32 { Extend(i >> 20, 0x800) }
  function ImmS(i: bv32): bv32 { Extend(((i >> 25) << 5) | ((i >> 7) & 31), 0x800) }
  function ImmB(i: bv32): bv32 {
    Extend(((i >> 31) << 12) | (((i >> 7) & 1) << 11) | (((i >> 25) & 0x3F) << 5) | (((i >> 8) & 15) << 1), 0x1000)
  }
  function ImmU(i: bv32): bv32 { i & 0xFFFF_F000 }
  function ImmJ(i: bv32): bv32 {
    Extend(((i >> 31) << 20) | (((i >> 12) & 0xFF) << 12) | (((i >> 20) & 1) << 11)
      | (((i >> 21) & 0x3FF) << 1), 0x10_0000)
  }

  function DecodeBranch(i: bv32): Insn {
    var f := Funct3(i);
    if f == 2 || f == 3 then Illegal
    else Branch(if f == 0 then Eq else if f == 1 then Ne else if f == 4 then Lt
                else if f == 5 then Ge else if f == 6 then Ltu else Geu, Rs1(i), Rs2(i), ImmB(i))
  }

  function DecodeLoad(i: bv32): Insn {
    var f := Funct3(i);
    if f == 3 || f == 6 || f == 7 then Illegal
    else Load(if f & 3 == 0 then Byte else if f & 3 == 1 then Half else Full, f & 4 != 0, Rd(i), Rs1(i), ImmI(i))
  }

  function DecodeStore(i: bv32): Insn {
    var f := Funct3(i);
    if f > 2 then Illegal
    else Store(if f == 0 then Byte else if f == 1 then Half else Full, Rs1(i), Rs2(i), ImmS(i))
  }

  function AluOf(f: bv32, alternate: bool): AluOp {
    if f == 0 then (if alternate then Sub else Add)
    else if f == 1 then Shifting(Sll) else if f == 2 then Slt else if f == 3 then Sltu else if f == 4 then Xor
    else if f == 5 then Shifting(if alternate then Sra else Srl)
    else if f == 6 then Or else And
  }

  // Shift amounts are five bits; the seven above them select the kind of shift.
  function DecodeOpImm(i: bv32): Insn {
    var f := Funct3(i);
    if f == 1 then
      if Funct7(i) == 0 then ShiftImm(Sll, Rd(i), Rs1(i), Rs2(i)) else Illegal
    else if f == 5 then
      if Funct7(i) == 0 then ShiftImm(Srl, Rd(i), Rs1(i), Rs2(i))
      else if Funct7(i) == 0x20 then ShiftImm(Sra, Rd(i), Rs1(i), Rs2(i))
      else Illegal
    else OpImm(AluOf(f, false), Rd(i), Rs1(i), ImmI(i))
  }

  function DecodeOpReg(i: bv32): Insn {
    var f := Funct3(i);
    if Funct7(i) == 0 then OpReg(AluOf(f, false), Rd(i), Rs1(i), Rs2(i))
    else if Funct7(i) == 0x20 && (f == 0 || f == 5) then OpReg(AluOf(f, true), Rd(i), Rs1(i), Rs2(i))
    else if Funct7(i) == 1 then
      if f < 4 then
        MulReg(if f == 0 then Mul else if f == 1 then Mulh else if f == 2 then Mulhsu else Mulhu, Rd(i), Rs1(i), Rs2(i))
      else
        DivReg(if f == 4 then Div else if f == 5 then Divu else if f == 6 then Rem else Remu, Rd(i), Rs1(i), Rs2(i))
    else Illegal
  }

  function DecodeSystem(i: bv32): Insn {
    var f := Funct3(i);
    if i == 0x0000_0073 then Ecall
    else if i == 0x0010_0073 then Ebreak
    else if i == 0x3020_0073 then Mret
    else if i == 0x1050_0073 then Wfi
    else if f & 3 == 0 || (i >> 20 != 0x300 && i >> 20 != 0x341 && i >> 20 != 0x342) then Illegal
    else Csr(if f & 3 == 1 then Rw else if f & 3 == 2 then Rs else Rc, Rd(i),
             if f & 4 != 0 then FromImm(Rs1(i)) else FromReg(Rs1(i)),
             if i >> 20 == 0x300 then Mstatus else if i >> 20 == 0x341 then Mepc else Mcause)
  }

  // The 32-bit encodings (chapter 24, tables 24.1 and 24.2).
  function Decode32(i: bv32): Insn {
    var opcode := i & 0x7F;
    if opcode == 0x37 then Lui(Rd(i), ImmU(i))
    else if opcode == 0x17 then Auipc(Rd(i), ImmU(i))
    else if opcode == 0x6F then Jal(Rd(i), ImmJ(i))
    else if opcode == 0x67 then if Funct3(i) == 0 then Jalr(Rd(i), Rs1(i), ImmI(i)) else Illegal
    else if opcode == 0x63 then DecodeBranch(i)
    else if opcode == 0x03 then DecodeLoad(i)
    else if opcode == 0x23 then DecodeStore(i)
    else if opcode == 0x13 then DecodeOpImm(i)
    else if opcode == 0x33 then DecodeOpReg(i)
    else if opcode == 0x73 then DecodeSystem(i)
    else if opcode == 0x0F then if Funct3(i) == 0 && Rd(i) == 0 then Fence else Illegal
    else Illegal
  }

  // Fields of the compressed formats (table 16.1).
  function CRd(c: bv16): bv5 { ((c >> 7) & 31) as bv5 }
  function CRs2(c: bv16): bv5 { ((c >> 2) & 31) as bv5 }
  function CRdP(c: bv16): bv5 { (8 + ((c >> 7) & 7)) as bv5 }
  function CRs2P(c: bv16): bv5 { (8 + ((c >> 2) & 7)) as bv5 }

  function CImm6(c: bv16): bv32 { Extend(((((c >> 12) & 1) as bv32) << 5) | (((c >> 2) & 31) as bv32), 0x20) }
  function CImmW(c: bv16): bv32 {
    ((((c >> 6) & 1) as bv32) << 2) | ((((c >> 10) & 7) as bv32) << 3) | ((((c >> 5) & 1) as bv32) << 6)
  }
  function CImmLwsp(c: bv16): bv32 {
    ((((c >> 4) & 7) as bv32) << 2) | ((((c >> 12) & 1) as bv32) << 5) | ((((c >> 2) & 3) as bv32) << 6)
  }
  function CImmSwsp(c: bv16): bv32 { ((((c >> 9) & 15) as bv32) << 2) | ((((c >> 7) & 3) as bv32) << 6) }
  function CImmSpn(c: bv16): bv32 {
    ((((c >> 6) & 1) as bv32) << 2) | ((((c >> 5) & 1) as bv32) << 3) | ((((c >> 11) & 3) as bv32) << 4)
      | ((((c >> 7) & 15) as bv32) << 6)
  }
  function CImmSp16(c: bv16): bv32 {
    Extend(((((c >> 6) & 1) as bv32) << 4) | ((((c >> 2) & 1) as bv32) << 5) | ((((c >> 5) & 1) as bv32) << 6)
      | ((((c >> 3) & 3) as bv32) << 7) | ((((c >> 12) & 1) as bv32) << 9), 0x200)
  }
  function CImmLui(c: bv16): bv32 {
    Extend(((((c >> 12) & 1) as bv32) << 17) | ((((c >> 2) & 31) as bv32) << 12), 0x2_0000)
  }
  // offset[11|4|9:8|10|6|7|3:1|5]
  function CImmJ(c: bv16): bv32 {
    Extend(((((c >> 12) & 1) as bv32) << 11) | ((((c >> 11) & 1) as bv32) << 4) | ((((c >> 9) & 3) as bv32) << 8)
      | ((((c >> 8) & 1) as bv32) << 10) | ((((c >> 7) & 1) as bv32) << 6)
           | ((((c >> 6) & 1) as bv32) << 7) | ((((c >> 3) & 7) as bv32) << 1) | ((((c >> 2) & 1) as bv32) << 5), 0x800)
  }
  // offset[8|4:3] and offset[7:6|2:1|5]
  function CImmB(c: bv16): bv32 {
    Extend(((((c >> 12) & 1) as bv32) << 8) | ((((c >> 10) & 3) as bv32) << 3) | ((((c >> 5) & 3) as bv32) << 6)
           | ((((c >> 3) & 3) as bv32) << 1) | ((((c >> 2) & 1) as bv32) << 5), 0x100)
  }

  // Quadrant 0 (table 16.5). Floating-point and reserved rows are illegal here.
  function DecodeC0(c: bv16): Insn {
    var f := c >> 13;
    if f == 0 then if CImmSpn(c) == 0 then Illegal else OpImm(Add, CRs2P(c), 2, CImmSpn(c))
    else if f == 2 then Load(Full, false, CRs2P(c), CRdP(c), CImmW(c))
    else if f == 6 then Store(Full, CRdP(c), CRs2P(c), CImmW(c))
    else Illegal
  }

  function DecodeC1Alu(c: bv16): Insn {
    var k := (c >> 10) & 3;
    if k == 0 then if c & 0x1000 != 0 then Illegal else ShiftImm(Srl, CRdP(c), CRdP(c), CRs2(c))
    else if k == 1 then if c & 0x1000 != 0 then Illegal else ShiftImm(Sra, CRdP(c), CRdP(c), CRs2(c))
    else if k == 2 then OpImm(And, CRdP(c), CRdP(c), CImm6(c))
    else if c & 0x1000 != 0 then Illegal
    else var k2 := (c >> 5) & 3;
      OpReg(if k2 == 0 then Sub else if k2 == 1 then Xor else if k2 == 2 then Or else And, CRdP(c), CRdP(c), CRs2P(c))
  }

  // Quadrant 1 (table 16.6). C.ADDI with x0 or a zero immediate is C.NOP or a hint, and
  // executes as the ADDI it abbreviates; likewise the other hints.
  function DecodeC1(c: bv16): Insn {
    var f := c >> 13;
    if f == 0 then OpImm(Add, CRd(c), CRd(c), CImm6(c))
    else if f == 1 then Jal(1, CImmJ(c))
    else if f == 2 then OpImm(Add, CRd(c), 0, CImm6(c))
    else if f == 3 then
      if c & 0x107C == 0 then Illegal
      else if CRd(c) == 2 then OpImm(Add, 2, 2, CImmSp16(c))
      else Lui(CRd(c), CImmLui(c))
    else if f == 4 then DecodeC1Alu(c)
    else if f == 5 then Jal(0, CImmJ(c))
    else Branch(if f == 6 then Eq else Ne, CRdP(c), 0, CImmB(c))
  }

  // Quadrant 2 (table 16.7).
  function DecodeC2(c: bv16): Insn {
    var f := c >> 13;
    if f == 0 then if c & 0x1000 != 0 then Illegal else ShiftImm(Sll, CRd(c), CRd(c), CRs2(c))
    else if f == 2 then if CRd(c) == 0 then Illegal else Load(Full, false, CRd(c), 2, CImmLwsp(c))
    else if f == 4 then
      if c & 0x1000 == 0 then
        if CRs2(c) != 0 then OpReg(Add, CRd(c), 0, CRs2(c))
        else if CRd(c) == 0 then Illegal else Jalr(0, CRd(c), 0)
      else
        if CRs2(c) != 0 then OpReg(Add, CRd(c), CRd(c), CRs2(c))
        else if CRd(c) == 0 then Ebreak else Jalr(1, CRd(c), 0)
    else if f == 6 then Store(Full, 2, CRs2(c), CImmSwsp(c))
    else Illegal
  }

  function DecodeC(c: bv16): Insn {
    var quadrant := c & 3;
    if quadrant == 0 then DecodeC0(c) else if quadrant == 1 then DecodeC1(c)
    else if quadrant == 2 then DecodeC2(c) else Illegal
  }

  // The instruction whose first halfword is lo; hi is the halfword after it.
  predicate IsLong(lo: bv16) { lo & 3 == 3 }

  // Two consecutive halfwords as one 32-bit number.
  function Join(lo: bv16, hi: bv16): bv32 { (lo as bv32) | ((hi as bv32) << 16) }

  function Decode(lo: bv16, hi: bv16): Insn {
    if IsLong(lo) then Decode32(Join(lo, hi)) else DecodeC(lo)
  }
}
