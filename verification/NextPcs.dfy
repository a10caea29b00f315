/** The stub's next-PC predictor: where the instruction at pc can go, computed from its bytes and
    the saved registers in 32-bit C arithmetic. */
module NextPcs {
  import opened Arith
  import opened Isa
  import opened Machine
  import opened Signals
  import Datapath
  import Decompressor

  // Sign extension from the bit of weight m, by exclusive or and subtraction.
  function Sext(val: bv32, m: bv32): bv32 { (val ^ m) - m }

  function Read16(m: Mem, a: int): bv16
    requires |m| > 0
  {
    HalfBits(Get(m, a), Get(m, a + 1))
  }

  function Read32(m: Mem, a: int): bv32
    requires |m| > 0
  {
    Join(Read16(m, a), Read16(m, a + 2))
  }

  // uint32_t addition.
  function Plus(x: int, imm: bv32): Word { Trunc(x + ToWord(imm)) }
  function Even(x: Word): Word { x - x % 2 }

  function JumpBits(i: bv32): bv32 {
    ((i >> 31) << 20) | (((i >> 21) & 0x3FF) << 1) | (((i >> 20) & 1) << 11) | (((i >> 12) & 0xFF) << 12)
  }
  function JumpImm(i: bv32): bv32 { Sext(JumpBits(i), 0x10_0000) }

  function BranchBits(i: bv32): bv32 {
    ((i >> 31) << 12) | (((i >> 25) & 0x3F) << 5) | (((i >> 8) & 15) << 1) | (((i >> 7) & 1) << 11)
  }
  function BranchImm(i: bv32): bv32 { Sext(BranchBits(i), 0x1000) }

  function CJumpImm(hw: bv16): bv32 {
    Sext((((hw >> 12) & 1) as bv32 << 11) | (((hw >> 11) & 1) as bv32 << 4) | (((hw >> 9) & 3) as bv32 << 8)
       | (((hw >> 8) & 1) as bv32 << 10) | (((hw >> 7) & 1) as bv32 << 6) | (((hw >> 6) & 1) as bv32 << 7)
       | (((hw >> 3) & 7) as bv32 << 1) | (((hw >> 2) & 1) as bv32 << 5), 0x800)
  }

  function CBranchImm(hw: bv16): bv32 {
    Sext((((hw >> 12) & 1) as bv32 << 8) | (((hw >> 10) & 3) as bv32 << 3) | (((hw >> 5) & 3) as bv32 << 6)
       | (((hw >> 3) & 3) as bv32 << 1) | (((hw >> 2) & 1) as bv32 << 5), 0x100)
  }

  function NextLong(i: bv32, pc: int, g: seq<Word>): (out: seq<Word>)
    requires |g| == 32
    ensures 1 <= |out| <= 2
  {
    var opcode := i & 0x7F;
    if opcode == 0x6F then [Plus(pc, JumpImm(i))]
    else if opcode == 0x67 then [Even(Plus(Read(g, Rs1(i)), Sext(i >> 20, 0x800)))]
    else if opcode == 0x63 then [Plus(pc, 4), Plus(pc, BranchImm(i))]
    else [Plus(pc, 4)]
  }

  function NextShort(hw: bv16, pc: int, g: seq<Word>): (out: seq<Word>)
    requires |g| == 32
    ensures 1 <= |out| <= 2
  {
    var op, func := hw & 3, (hw >> 13) & 7;
    if op == 1 && (func == 5 || func == 1) then [Plus(pc, CJumpImm(hw))]
    else if op == 1 && (func == 6 || func == 7) then [Plus(pc, 2), Plus(pc, CBranchImm(hw))]
    else if op == 2 && hw & 0x7F == 2 && ((hw >> 12) & 15 == 8 || (hw >> 12) & 15 == 9) && (hw >> 7) & 31 != 0 then
      [Even(Read(g, ((hw >> 7) & 31) as bv5))]
    else [Plus(pc, 2)]
  }

  // next_pcs.
  function Successors(m: Mem, pc: int, g: seq<Word>): (out: seq<Word>)
    requires |m| > 0 && |g| == 32
    ensures 1 <= |out| <= 2
  {
    if Read16(m, pc) & 3 == 3 then NextLong(Read32(m, pc), pc, g) else NextShort(Read16(m, pc), pc, g)
  }

  // The stub's unscrambling gives the immediates of the ISA, and sext is sign extension.
  lemma SextJumpSet(x: bv32)
    requires x < 0x20_0000 && x & 0x10_0000 != 0
    ensures (x ^ 0x10_0000) - 0x10_0000 == x | 0xFFF0_0000
  {
  }

  lemma SextJumpClear(x: bv32)
    requires x < 0x20_0000 && x & 0x10_0000 == 0
    ensures (x ^ 0x10_0000) - 0x10_0000 == x
  {
  }

  lemma SextJump(x: bv32)
    requires x < 0x20_0000
    ensures Sext(x, 0x10_0000) == Extend(x, 0x10_0000)
  {
    SextJumpOnes();
    if x & 0x10_0000 != 0 {
      SextJumpSet(x);
    } else {
      SextJumpClear(x);
    }
  }

  lemma SextJumpOnes()
    ensures !((0x10_0000 as bv32) - 1) == 0xFFF0_0000
  {
  }

  lemma SextBranchSet(x: bv32)
    requires x < 0x2000 && x & 0x1000 != 0
    ensures (x ^ 0x1000) - 0x1000 == x | 0xFFFF_F000
  {
  }

  lemma SextBranchClear(x: bv32)
    requires x < 0x2000 && x & 0x1000 == 0
    ensures (x ^ 0x1000) - 0x1000 == x
  {
  }

  lemma SextBranch(x: bv32)
    requires x < 0x2000
    ensures Sext(x, 0x1000) == Extend(x, 0x1000)
  {
    SextBranchOnes();
    if x & 0x1000 != 0 {
      SextBranchSet(x);
    } else {
      SextBranchClear(x);
    }
  }

  lemma SextBranchOnes()
    ensures !((0x1000 as bv32) - 1) == 0xFFFF_F000
  {
  }

  lemma JumpField(i: bv32)
    ensures JumpBits(i) < 0x20_0000 && Extend(JumpBits(i), 0x10_0000) == ImmJ(i)
  {
    hide Extend;
  }

  lemma BranchField(i: bv32)
    ensures BranchBits(i) < 0x2000 && Extend(BranchBits(i), 0x1000) == ImmB(i)
  {
    hide Extend;
  }

  lemma JumpImmediate(i: bv32)
    ensures JumpImm(i) == ImmJ(i)
  {
    hide JumpBits, Sext, Extend, ImmJ;
    JumpField(i);
    SextJump(JumpBits(i));
  }

  lemma BranchImmediate(i: bv32)
    ensures BranchImm(i) == ImmB(i)
  {
    hide BranchBits, Sext, Extend, ImmB;
    BranchField(i);
    SextBranch(BranchBits(i));
  }

  lemma IndirectImmediate(i: bv32)
    ensures Sext(i >> 20, 0x800) == ImmI(i)
  {
  }

  lemma CJumpImmediate(hw: bv16)
    ensures CJumpImm(hw) == CImmJ(hw)
  {
  }

  lemma CBranchImmediate(hw: bv16)
    ensures CBranchImm(hw) == CImmB(hw)
  {
  }

  // The compressed encodings that change the flow, as the stub tells them apart.
  lemma ShortFlow(hw: bv16)
    requires DecodeC(hw) != Illegal
    ensures var op, func := hw & 3, (hw >> 13) & 7;
      && (op == 1 && (func == 5 || func == 1) <==> DecodeC(hw).Jal?)
      && (op == 1 && (func == 6 || func == 7) <==> DecodeC(hw).Branch?)
      && (op == 2 && hw & 0x7F == 2 && ((hw >> 12) & 15 == 8 || (hw >> 12) & 15 == 9) && (hw >> 7) & 31 != 0
        <==> DecodeC(hw).Jalr?)
    ensures match DecodeC(hw)
            case Jal(rd, imm) => imm == CImmJ(hw)
            case Branch(cond, rs1, rs2, imm) => imm == CImmB(hw)
            case Jalr(rd, rs1, imm) => rs1 == ((hw >> 7) & 31) as bv5 && imm == 0
            case _ => true
  {
    hide CImmJ, CImmB, CImm6, CImmW, CImmSpn, CImmLwsp, CImmSwsp, CImmSp16, CImmLui, CRdP, CRs2P;
  }

  lemma PlusMod(pc: int, imm: bv32, size: nat)
    requires Sized(size)
    ensures size > 0 && Plus(pc, imm) % size == (pc + ToWord(imm)) % size
  {
    hide Pow2, Sized;
    Datapath.WordMod(pc + ToWord(imm), size);
  }

  // Clearing bit 0 before or after truncating the address.
  lemma EvenMod(x: Word, size: nat)
    requires Sized(size)
    ensures size > 0 && Even(x) % size == x % size - x % size % 2
  {
    hide Pow2, Sized;
    SizeFits(size);
    EvenRemainder(x, size, x / size, x % size);
  }

  lemma EvenRemainder(x: int, n: int, q: int, r: int)
    requires n > 0 && n % 4 == 0 && x == q * n + r && 0 <= r < n
    ensures (x - x % 2) % n == r - r % 2
  {
    var h := n / 4;
    assert n == 4 * h;
    FourTimes(q, h);
    ModShift(r, 2 * (q * h), 2);
    DivMod(x - r % 2, n, q, r - r % 2);
  }

  lemma FourTimes(q: int, h: int)
    ensures q * (4 * h) == 2 * (q * h) * 2
  {
  }

  lemma EvenRead(m: Mem, pc: int)
    requires |m| > 0 && pc % 2 == 0
    ensures Read16(m, pc) == HalfAt(m, pc) && Read32(m, pc) == Join(HalfAt(m, pc), HalfAt(m, pc + 2))
  {
    hide Join, HalfBits;
  }

  predicate Predicts(out: seq<Word>, size: nat, target: int)
    requires size > 0
  {
    exists i :: 0 <= i < |out| && out[i] % size == target
  }

  // Where an instruction of len bytes at pc can go, by its meaning.
  function Possible(insn: Insn, len: nat, pc: int, g: seq<Word>): (out: seq<Word>)
    requires |g| == 32
  {
    if insn.Jal? then [Plus(pc, insn.imm)]
    else if insn.Jalr? then [Even(Plus(Read(g, insn.rs1), insn.imm))]
    else if insn.Branch? then [Trunc(pc + len), Plus(pc, insn.imm)]
    else [Trunc(pc + len)]
  }

  lemma SmallWord()
    ensures ToWord(0) == 0 && ToWord(2) == 2 && ToWord(4) == 4
  {
    hide Pow2;
  }

  lemma PlusZero(x: Word)
    ensures Plus(x, 0) == x
  {
    hide Pow2, ToWord;
    SmallWord();
    DivMod(x, Pow2(32), 0, x);
  }

  // The predictor reads the meaning right, of 32-bit and of compressed instructions.
  lemma LongPossible(i: bv32, pc: int, g: seq<Word>)
    requires |g| == 32 && Decode32(i) != Illegal
    ensures NextLong(i, pc, g) == Possible(Decode32(i), 4, pc, g)
  {
    hide Pow2, Decode32, JumpImm, BranchImm, Sext, Even, ImmJ, ImmB, ImmI, ImmU, ImmS, Rd, Rs1, Rs2, Funct3, Funct7,
      AluOf, ShiftCode, ToWord, Trunc;
    Inverse(i);
    JumpImmediate(i);
    BranchImmediate(i);
    IndirectImmediate(i);
    SmallWord();
  }

  lemma ShortPossible(hw: bv16, pc: int, g: seq<Word>)
    requires |g| == 32 && DecodeC(hw) != Illegal
    ensures NextShort(hw, pc, g) == Possible(DecodeC(hw), 2, pc, g)
  {
    hide Pow2, DecodeC, CJumpImm, CBranchImm, CImmJ, CImmB, Even, ToWord, Trunc;
    ShortFlow(hw);
    CJumpImmediate(hw);
    CBranchImmediate(hw);
    SmallWord();
    PlusZero(Read(g, ((hw >> 7) & 31) as bv5));
  }

  lemma FirstPredicts(out: seq<Word>, size: nat, i: nat, target: int)
    requires size > 0 && i < |out| && out[i] % size == target
    ensures Predicts(out, size, target)
  {
  }

  lemma WrappedPc(x: int, size: nat)
    requires Sized(size)
    ensures size > 0 && Trunc(x) % size == x % size
  {
    hide Pow2, Sized;
    Datapath.WordMod(x, size);
  }

  // Each kind of target is among the possibilities.
  lemma NextCovered(a: Arch, insn: Insn)
    requires Valid(a) && !insn.Mret? && !insn.Jal? && !insn.Jalr?
    requires insn.Branch? ==> !Holds(insn.cond, Reg(a, insn.rs1), Reg(a, insn.rs2))
    ensures Predicts(Possible(insn, if LongAt(a.mem, a.pc) then 4 else 2, a.pc, a.regs), |a.mem|, Target(a, insn))
  {
    hide Pow2, Sized, LongAt, Plus, Even, Holds, ToWord, Trunc, Predicts;
    var len, size := if LongAt(a.mem, a.pc) then 4 else 2, |a.mem|;
    WrappedPc(a.pc + len, size);
    FirstPredicts(Possible(insn, len, a.pc, a.regs), size, 0, Target(a, insn));
  }

  lemma RelativeCovered(a: Arch, insn: Insn)
    requires Valid(a) && (insn.Jal? || (insn.Branch? && Holds(insn.cond, Reg(a, insn.rs1), Reg(a, insn.rs2))))
    ensures Predicts(Possible(insn, if LongAt(a.mem, a.pc) then 4 else 2, a.pc, a.regs), |a.mem|, Target(a, insn))
  {
    hide Pow2, Sized, LongAt, Plus, Even, Holds, ToWord, Trunc, Predicts;
    PlusMod(a.pc, insn.imm, |a.mem|);
    FirstPredicts(Possible(insn, if LongAt(a.mem, a.pc) then 4 else 2, a.pc, a.regs), |a.mem|,
                  if insn.Jal? then 0 else 1, Target(a, insn));
  }

  lemma IndirectCovered(a: Arch, insn: Insn)
    requires Valid(a) && insn.Jalr?
    ensures Predicts(Possible(insn, if LongAt(a.mem, a.pc) then 4 else 2, a.pc, a.regs), |a.mem|, Target(a, insn))
  {
    hide Pow2, Sized, LongAt, Plus, Even, Holds, ToWord, Trunc, Predicts;
    PlusMod(Read(a.regs, insn.rs1), insn.imm, |a.mem|);
    EvenMod(Plus(Read(a.regs, insn.rs1), insn.imm), |a.mem|);
    FirstPredicts(Possible(insn, if LongAt(a.mem, a.pc) then 4 else 2, a.pc, a.regs), |a.mem|, 0, Target(a, insn));
  }

  lemma PossibleCovers(a: Arch, insn: Insn)
    requires Valid(a) && !insn.Mret?
    ensures Predicts(Possible(insn, if LongAt(a.mem, a.pc) then 4 else 2, a.pc, a.regs), |a.mem|, Target(a, insn))
  {
    hide Pow2, Sized, LongAt, Holds, Target, Possible, Predicts;
    if insn.Jalr? {
      IndirectCovered(a, insn);
    } else if insn.Jal? || (insn.Branch? && Holds(insn.cond, Reg(a, insn.rs1), Reg(a, insn.rs2))) {
      RelativeCovered(a, insn);
    } else {
      NextCovered(a, insn);
    }
  }

  // For every register state and every instruction but ECALL, EBREAK and MRET, where control
  // goes is among the predicted addresses, modulo the size of the address space.
  lemma PredictorCovers(a: Arch)
    requires Valid(a) && a.pc % 2 == 0
    requires var insn := InsnAt(a.mem, a.pc); !insn.Illegal? && !insn.Ecall? && !insn.Ebreak? && !insn.Mret?
    ensures Predicts(Successors(a.mem, a.pc, a.regs), |a.mem|, Target(a, InsnAt(a.mem, a.pc)))
  {
    hide Pow2, Sized, DecodeC, Decode32, NextLong, NextShort, Target, HalfAt, Predicts, Join, Read16, Read32,
      Possible;
    EvenRead(a.mem, a.pc);
    var lo, hi := HalfAt(a.mem, a.pc), HalfAt(a.mem, a.pc + 2);
    Decompressor.JoinLow(lo, hi);
    PossibleCovers(a, InsnAt(a.mem, a.pc));
    if IsLong(lo) {
      LongPossible(Join(lo, hi), a.pc, a.regs);
    } else {
      ShortPossible(lo, a.pc, a.regs);
    }
  }
}
