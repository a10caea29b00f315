/** The RVC decompressor: a combinational rewriting of every compressed encoding into the
    32-bit instruction it abbreviates. */
module Decompressor {
  import opened Isa

  // Fields of the low halfword, widened: rcl and rch name the eight popular registers,
  // rwl and rwh any register.
  function Rcl(c: bv16): bv32 { 8 | (((c >> 2) & 7) as bv32) }
  function Rch(c: bv16): bv32 { 8 | (((c >> 7) & 7) as bv32) }
  function Rwl(c: bv16): bv32 { ((c >> 2) & 31) as bv32 }
  function Rwh(c: bv16): bv32 { ((c >> 7) & 31) as bv32 }

  // n copies of bit 12.
  function Sign(c: bv16, ones: bv32): bv32 { if c & 0x1000 != 0 then ones else 0 }

  function Addi4spn(c: bv16): bv32 {
    ((((c >> 7) & 15) as bv32) << 6) | ((((c >> 11) & 3) as bv32) << 4) | ((((c >> 5) & 1) as bv32) << 3)
      | ((((c >> 6) & 1) as bv32) << 2)
  }
  function Lwsw(c: bv16): bv32 {
    ((((c >> 5) & 1) as bv32) << 6) | ((((c >> 10) & 7) as bv32) << 3) | ((((c >> 6) & 1) as bv32) << 2)
  }
  function Lwsp(c: bv16): bv32 {
    ((((c >> 2) & 3) as bv32) << 6) | ((((c >> 12) & 1) as bv32) << 5) | ((((c >> 4) & 7) as bv32) << 2)
  }
  function Swsp(c: bv16): bv32 { ((((c >> 7) & 3) as bv32) << 6) | ((((c >> 9) & 15) as bv32) << 2) }
  function Addi16sp(c: bv16): bv32 {
    Sign(c, 0xE00) | ((((c >> 3) & 3) as bv32) << 7) | ((((c >> 5) & 1) as bv32) << 6)
      | ((((c >> 2) & 1) as bv32) << 5) | ((((c >> 6) & 1) as bv32) << 4)
  }
  function AddImm(c: bv16): bv32 { Sign(c, 0xFE0) | (((c >> 2) & 31) as bv32) }
  function BImm(c: bv16): bv32 {
    Sign(c, 0x1F00) | ((((c >> 5) & 3) as bv32) << 6) | ((((c >> 2) & 1) as bv32) << 5)
      | ((((c >> 10) & 3) as bv32) << 3) | ((((c >> 3) & 3) as bv32) << 1)
  }
  function JalImm(c: bv16): bv32 {
    Sign(c, 0x1F_F800) | ((((c >> 8) & 1) as bv32) << 10) | ((((c >> 9) & 3) as bv32) << 8)
      | ((((c >> 6) & 1) as bv32) << 7) | ((((c >> 7) & 1) as bv32) << 6)
    | ((((c >> 2) & 1) as bv32) << 5) | ((((c >> 11) & 1) as bv32) << 4) | ((((c >> 3) & 7) as bv32) << 1)
  }
  function LuiImm(c: bv16): bv32 { Sign(c, 0xFFFE_0000) | ((((c >> 2) & 31) as bv32) << 12) }

  // The concatenations that build each 32-bit format; op is the 7-bit opcode.
  function IType(imm: bv32, rs1: bv32, f3: bv32, rd: bv32, op: bv32): bv32 {
    (imm << 20) | (rs1 << 15) | (f3 << 12) | (rd << 7) | op
  }
  function RType(f7: bv32, rs2: bv32, rs1: bv32, f3: bv32, rd: bv32, op: bv32): bv32 {
    (f7 << 25) | (rs2 << 20) | (rs1 << 15) | (f3 << 12) | (rd << 7) | op
  }
  function SType(imm: bv32, rs2: bv32, rs1: bv32, f3: bv32): bv32 {
    ((imm >> 5) << 25) | (rs2 << 20) | (rs1 << 15) | (f3 << 12) | ((imm & 31) << 7) | 0x23
  }
  function BType(imm: bv32, rs1: bv32, f3: bv32): bv32 {
    (((imm >> 12) & 1) << 31) | (((imm >> 5) & 0x3F) << 25) | (rs1 << 15) | (f3 << 12)
    | (((imm >> 1) & 15) << 8) | (((imm >> 11) & 1) << 7) | 0x63
  }
  function JType(imm: bv32, rd: bv32): bv32 {
    (((imm >> 20) & 1) << 31) | (((imm >> 1) & 0x3FF) << 21) | (((imm >> 11) & 1) << 20)
    | (((imm >> 12) & 0xFF) << 12) | (rd << 7) | 0x6F
  }

  const UNKNOWN: bv32 := 0

  function Quadrant0(c: bv16): bv32 {
    var f := c >> 13;
    if f == 0 then if c == 0 then UNKNOWN else IType(Addi4spn(c), 2, 0, Rcl(c), 0x13)
    else if f == 2 then IType(Lwsw(c), Rch(c), 2, Rcl(c), 0x03)
    else if f == 6 then SType(Lwsw(c), Rcl(c), Rch(c), 2)
    else UNKNOWN
  }

  function Quadrant1Alu(c: bv16): bv32 {
    var k := (c >> 10) & 3;
    if k == 0 then RType(0, Rwl(c), Rch(c), 5, Rch(c), 0x13)
    else if k == 1 then RType(0x20, Rwl(c), Rch(c), 5, Rch(c), 0x13)
    else if k == 2 then IType(AddImm(c), Rch(c), 7, Rch(c), 0x13)
    else if c & 0x1000 != 0 then UNKNOWN
    else
      var k2 := (c >> 5) & 3;
      if k2 == 0 then RType(0x20, Rcl(c), Rch(c), 0, Rch(c), 0x33)
      else RType(0, Rcl(c), Rch(c), if k2 == 1 then 4 else if k2 == 2 then 6 else 7, Rch(c), 0x33)
  }

  function Quadrant1(c: bv16): bv32 {
    var f := c >> 13;
    if f == 0 then IType(AddImm(c), Rwh(c), 0, Rwh(c), 0x13)
    else if f == 1 then JType(JalImm(c), 1)
    else if f == 2 then IType(AddImm(c), 0, 0, Rwh(c), 0x13)
    else if f == 3 then
      if Rwh(c) == 2 then IType(Addi16sp(c), Rwh(c), 0, Rwh(c), 0x13)
      else (LuiImm(c) & 0xFFFF_F000) | (Rwh(c) << 7) | 0x37
    else if f == 4 then Quadrant1Alu(c)
    else if f == 5 then JType(JalImm(c), 0)
    else BType(BImm(c), Rch(c), if f == 6 then 0 else 1)
  }

  function Quadrant2(c: bv16): bv32 {
    var f := c >> 13;
    if f == 0 then RType(0, Rwl(c), Rwh(c), 1, Rwh(c), 0x13)
    else if f == 2 then IType(Lwsp(c), 2, 2, Rwh(c), 0x03)
    else if f == 4 then
      if c & 0x1000 == 0 then
        if Rwl(c) == 0 then IType(0, Rwh(c), 0, 0, 0x67) else RType(0, Rwl(c), 0, 0, Rwh(c), 0x33)
      else
        if Rwl(c) == 0 then if Rwh(c) == 0 then 0x0010_0073 else IType(0, Rwh(c), 0, 1, 0x67)
        else RType(0, Rwl(c), Rwh(c), 0, Rwh(c), 0x33)
    else if f == 6 then SType(Swsp(c), Rwl(c), 2, 2)
    else UNKNOWN
  }

  // The case statement of the source looks at the low halfword only; 32-bit instructions
  // pass through.
  function Decompress(c: bv32): bv32 {
    if c & 3 == 3 then c else Expand((c & 0xFFFF) as bv16)
  }

  function Expand(c: bv16): bv32 {
    if c & 3 == 0 then Quadrant0(c)
    else if c & 3 == 1 then Quadrant1(c)
    else Quadrant2(c)
  }

  // What the decoder finds in each assembled format.
  lemma IFields(imm: bv32, rs1: bv32, f3: bv32, rd: bv32, op: bv32)
    requires imm < 0x1000 && rs1 < 32 && f3 < 8 && rd < 32 && op < 0x80
    ensures var i := IType(imm, rs1, f3, rd, op);
      && i & 0x7F == op && Rd(i) == rd as bv5 && Rs1(i) == rs1 as bv5 && Funct3(i) == f3
      && ImmI(i) == Extend(imm, 0x800)
  {
  }

  lemma SFields(imm: bv32, rs2: bv32, rs1: bv32, f3: bv32)
    requires imm < 0x1000 && rs2 < 32 && rs1 < 32 && f3 < 8
    ensures var i := SType(imm, rs2, rs1, f3);
      && i & 0x7F == 0x23 && Rs1(i) == rs1 as bv5 && Rs2(i) == rs2 as bv5 && Funct3(i) == f3
      && ImmS(i) == Extend(imm, 0x800)
  {
  }

  lemma RFields(f7: bv32, rs2: bv32, rs1: bv32, f3: bv32, rd: bv32, op: bv32)
    requires f7 < 0x80 && rs2 < 32 && rs1 < 32 && f3 < 8 && rd < 32 && op < 0x80
    ensures var i := RType(f7, rs2, rs1, f3, rd, op);
      && i & 0x7F == op && Rd(i) == rd as bv5 && Rs1(i) == rs1 as bv5 && Rs2(i) == rs2 as bv5
      && Funct3(i) == f3 && Funct7(i) == f7
  {
  }

  lemma BFields(c: bv16, rs1: bv32, f3: bv32)
    requires rs1 < 32 && f3 < 8
    ensures var i := BType(BImm(c), rs1, f3);
      && i & 0x7F == 0x63 && Rs1(i) == rs1 as bv5 && Rs2(i) == 0 && Funct3(i) == f3
      && ImmB(i) == CImmB(c)
  {
  }

  lemma JFields(imm: bv32, rd: bv32)
    requires imm < 0x20_0000 && imm & 1 == 0 && rd < 32
    ensures var i := JType(imm, rd);
      && i & 0x7F == 0x6F && Rd(i) == rd as bv5
      && ImmJ(i) == Extend(imm, 0x10_0000)
  {
  }

  // Register fields of the two halfword readings.
  lemma Registers(c: bv16)
    ensures Rwh(c) < 32 && Rwl(c) < 32 && Rch(c) < 32 && Rcl(c) < 32
    ensures Rwh(c) as bv5 == CRd(c) && Rwl(c) as bv5 == CRs2(c)
    ensures Rch(c) as bv5 == CRdP(c) && Rcl(c) as bv5 == CRs2P(c)
    ensures (Rwl(c) == 0) == (CRs2(c) == 0) && (Rwh(c) == 0) == (CRd(c) == 0) && (Rwh(c) == 2) == (CRd(c) == 2)
  {
  }

  // Immediates of the twelve-bit formats.
  lemma SpnImmediate(c: bv16)
    ensures Addi4spn(c) < 0x1000 && Extend(Addi4spn(c), 0x800) == CImmSpn(c)
  {
  }

  lemma WordImmediate(c: bv16)
    ensures Lwsw(c) < 0x1000 && Extend(Lwsw(c), 0x800) == CImmW(c)
  {
  }

  lemma AddImmediate(c: bv16)
    ensures AddImm(c) < 0x1000 && Extend(AddImm(c), 0x800) == CImm6(c)
  {
  }

  lemma LwspImmediate(c: bv16)
    ensures Lwsp(c) < 0x1000 && Extend(Lwsp(c), 0x800) == CImmLwsp(c)
  {
  }

  lemma SwspImmediate(c: bv16)
    ensures Swsp(c) < 0x1000 && Extend(Swsp(c), 0x800) == CImmSwsp(c)
  {
  }

  lemma Sp16Immediate(c: bv16)
    ensures Addi16sp(c) < 0x1000 && Extend(Addi16sp(c), 0x800) == CImmSp16(c)
  {
  }

  lemma JumpImmediate(c: bv16)
    ensures JalImm(c) < 0x20_0000 && JalImm(c) & 1 == 0 && Extend(JalImm(c), 0x10_0000) == CImmJ(c)
  {
    JumpRange(c);
    if c & 0x1000 == 0 {
      ForwardJump(c);
    } else {
      BackwardJump(c);
    }
  }

  lemma JumpRange(c: bv16)
    ensures JalImm(c) < 0x20_0000 && JalImm(c) & 1 == 0
  {
  }

  lemma ForwardJump(c: bv16)
    requires c & 0x1000 == 0
    ensures Extend(JalImm(c), 0x10_0000) == CImmJ(c)
  {
  }

  lemma BackwardJump(c: bv16)
    requires c & 0x1000 != 0
    ensures Extend(JalImm(c), 0x10_0000) == CImmJ(c)
  {
  }

  lemma UpperImmediate(c: bv16)
    ensures var i := (LuiImm(c) & 0xFFFF_F000) | (Rwh(c) << 7) | 0x37;
      i & 0x7F == 0x37 && Rd(i) == CRd(c) && ImmU(i) == CImmLui(c)
  {
  }

  // Each quadrant decodes, once expanded, to what its table says.
  lemma Quadrant0Meaning(c: bv16)
    requires c & 3 == 0 && DecodeC0(c) != Illegal
    ensures Decode32(Quadrant0(c)) == DecodeC0(c)
  {
    Registers(c);
    SpnImmediate(c);
    WordImmediate(c);
    IFields(Addi4spn(c), 2, 0, Rcl(c), 0x13);
    IFields(Lwsw(c), Rch(c), 2, Rcl(c), 0x03);
    SFields(Lwsw(c), Rcl(c), Rch(c), 2);
  }

  lemma Quadrant1AluMeaning(c: bv16)
    requires c & 3 == 1 && DecodeC1Alu(c) != Illegal
    ensures Decode32(Quadrant1Alu(c)) == DecodeC1Alu(c)
  {
    hide RType, IType, Rd, Rs1, Rs2, Funct3, Funct7, ImmI, AddImm, CImm6, Rch, Rcl, Rwl, CRdP, CRs2P, CRs2;
    Registers(c);
    if (c >> 10) & 3 == 3 {
      AluRegisters(c);
    } else {
      AddImmediate(c);
      var k := (c >> 10) & 3;
      if k < 2 {
        RFields(if k == 0 then 0 else 0x20, Rwl(c), Rch(c), 5, Rch(c), 0x13);
      } else {
        IFields(AddImm(c), Rch(c), 7, Rch(c), 0x13);
      }
    }
  }

  lemma AluRegisters(c: bv16)
    requires c & 3 == 1 && (c >> 10) & 3 == 3 && DecodeC1Alu(c) != Illegal
    ensures Decode32(Quadrant1Alu(c)) == DecodeC1Alu(c)
  {
    hide RType, IType, Rd, Rs1, Rs2, Funct3, Funct7, Rch, Rcl, CRdP, CRs2P;
    Registers(c);
    var k2 := (c >> 5) & 3;
    if k2 == 0 {
      RFields(0x20, Rcl(c), Rch(c), 0, Rch(c), 0x33);
    } else {
      RFields(0, Rcl(c), Rch(c), if k2 == 1 then 4 else if k2 == 2 then 6 else 7, Rch(c), 0x33);
    }
  }

  lemma Quadrant1Meaning(c: bv16)
    requires c & 3 == 1 && DecodeC1(c) != Illegal
    ensures Decode32(Quadrant1(c)) == DecodeC1(c)
  {
    hide RType, IType, JType, BType, Rd, Rs1, Rs2, Funct3, Funct7, ImmI, ImmB, ImmJ, ImmU, AddImm, CImm6, Rch, Rcl,
      Rwl, Rwh, CRdP, CRs2P, CRd, Quadrant1Alu, DecodeC1Alu, BImm, JalImm, CImmB, CImmJ, Addi16sp, CImmSp16, LuiImm,
      CImmLui;
    Registers(c);
    if c >> 13 == 4 {
      Quadrant1AluMeaning(c);
    } else if c >> 13 == 3 {
      Sp16Immediate(c);
      UpperImmediate(c);
      IFields(Addi16sp(c), Rwh(c), 0, Rwh(c), 0x13);
    } else if c >> 13 >= 5 || c >> 13 == 1 {
      JumpImmediate(c);
      JFields(JalImm(c), 0);
      JFields(JalImm(c), 1);
      BFields(c, Rch(c), 0);
      BFields(c, Rch(c), 1);
    } else {
      AddImmediate(c);
      IFields(AddImm(c), Rwh(c), 0, Rwh(c), 0x13);
      IFields(AddImm(c), 0, 0, Rwh(c), 0x13);
    }
  }

  lemma Quadrant2Meaning(c: bv16)
    requires c & 3 == 2 && DecodeC2(c) != Illegal
    ensures Decode32(Quadrant2(c)) == DecodeC2(c)
  {
    hide RType, IType, SType, Rd, Rs1, Rs2, Funct3, Funct7, ImmI, ImmS, Rwl, Rwh, CRd, CRs2, Lwsp, Swsp, CImmLwsp,
      CImmSwsp;
    Registers(c);
    if c >> 13 == 4 {
      JumpOrAddRegister(c);
    } else {
      LwspImmediate(c);
      SwspImmediate(c);
      RFields(0, Rwl(c), Rwh(c), 1, Rwh(c), 0x13);
      IFields(Lwsp(c), 2, 2, Rwh(c), 0x03);
      SFields(Swsp(c), Rwl(c), 2, 2);
    }
  }

  lemma JumpOrAddRegister(c: bv16)
    requires c & 3 == 2 && c >> 13 == 4 && DecodeC2(c) != Illegal
    ensures Decode32(Quadrant2(c)) == DecodeC2(c)
  {
    hide RType, IType, Rd, Rs1, Rs2, Funct3, Funct7, ImmI, Rwl, Rwh, CRd, CRs2;
    Registers(c);
    IFields(0, Rwh(c), 0, 0, 0x67);
    IFields(0, Rwh(c), 0, 1, 0x67);
    RFields(0, Rwl(c), 0, 0, Rwh(c), 0x33);
    RFields(0, Rwl(c), Rwh(c), 0, Rwh(c), 0x33);
  }

  lemma ExpandFaithful(c: bv16)
    requires c & 3 != 3 && DecodeC(c) != Illegal
    ensures Decode32(Expand(c)) == DecodeC(c)
  {
    hide Decode32, Quadrant0, Quadrant1, Quadrant2, DecodeC0, DecodeC1, DecodeC2;
    if c & 3 == 0 {
      Quadrant0Meaning(c);
    } else if c & 3 == 1 {
      Quadrant1Meaning(c);
    } else {
      Quadrant2Meaning(c);
    }
  }

  // Encodings that the tables reserve and the expander does not look out for: ADDI4SPN, LUI and
  // ADDI16SP of zero, shifts by 32 and more, LWSP to x0 and JR of x0.
  predicate Reserved(c: bv16)
  {
    var f := c >> 13;
    if c & 3 == 0 then f == 0 && c & 0x1FE0 == 0 && c != 0
    else if c & 3 == 1 then
      (f == 3 && c & 0x107C == 0) || (f == 4 && c & 0x1000 != 0 && ((c >> 10) & 3 == 0 || (c >> 10) & 3 == 1))
    else (f == 0 && c & 0x1000 != 0) || (f == 2 && c & 0x0F80 == 0) || (f == 4 && c & 0x1FFC == 0)
  }

  lemma SpnZero(c: bv16)
    ensures CImmSpn(c) == 0 <==> c & 0x1FE0 == 0
  {
  }

  lemma ZeroRegisters(c: bv16)
    ensures CRd(c) == 0 <==> c & 0x0F80 == 0
    ensures c & 0x1FFC == 0 <==> c & 0x1000 == 0 && CRd(c) == 0 && CRs2(c) == 0
  {
  }

  lemma ReservedIsIllegal(c: bv16)
    requires c & 3 != 3 && Reserved(c)
    ensures DecodeC(c) == Illegal
  {
    hide CImmSpn, CRd, CRs2;
    SpnZero(c);
    ZeroRegisters(c);
  }

  lemma OtherwiseUnknown(c: bv16)
    requires c & 3 != 3 && !Reserved(c) && DecodeC(c) == Illegal
    ensures Expand(c) == UNKNOWN
  {
    hide CImmSpn, CRd, CRs2, IType, RType, SType, JType, BType, Rwl, Rwh, Rcl, Rch;
    SpnZero(c);
    ZeroRegisters(c);
  }

  // An encoding is legal exactly when it is not reserved and the expander knows it.
  lemma LegalExactly(c: bv16)
    requires c & 3 != 3
    ensures DecodeC(c) == Illegal <==> Reserved(c) || Expand(c) == UNKNOWN
  {
    hide DecodeC, Expand, Reserved;
    if DecodeC(c) == Illegal {
      if !Reserved(c) { OtherwiseUnknown(c); }
    } else {
      ExpandFaithful(c);
      UnknownIsIllegal();
      if Reserved(c) { ReservedIsIllegal(c); }
    }
  }

  lemma UnknownIsIllegal()
    ensures Decode32(UNKNOWN) == Illegal
  {
  }

  lemma JoinLow(lo: bv16, hi: bv16)
    ensures (Join(lo, hi) & 3 == 3) == (lo & 3 == 3)
    ensures (Join(lo, hi) & 0xFFFF) as bv16 == lo
  {
  }

  // Every legal compressed instruction is expanded into one with the same meaning, whatever
  // the other half of the 32-bit input holds; 32-bit instructions are left alone.
  lemma Faithful(lo: bv16, hi: bv16)
    requires Decode(lo, hi) != Illegal
    ensures Decode32(Decompress(Join(lo, hi))) == Decode(lo, hi)
  {
    hide Decode32, Expand, DecodeC, Join;
    JoinLow(lo, hi);
    if lo & 3 != 3 {
      ExpandFaithful(lo);
    }
  }
}
