/** One-step semantics of RV32IMC on a machine with 2^n bytes of byte-addressed memory: the
    architectural state and the effect of one instruction on it. */
module Machine {
  import opened Arith
  import opened Isa
  import MulDivSpec
  import Shifter

  type Word = x: int | 0 <= x < Pow2(32)

  // Addresses wrap at the size of the memory.
  type Mem = seq<bv8>

  lemma Pow32()
    ensures Pow2(32) == 0x1_0000_0000 && Pow2(31) == 0x8000_0000
  {
    assert Pow2(8) == 256;
    Pow2Add(8, 8);
    Pow2Add(16, 15);
    Pow2Add(16, 16);
  }

  function ToWord(v: bv32): Word
  {
    Pow32();
    v as int
  }

  function Trunc(x: int): Word { x % Pow2(32) }

  function ToBits(x: Word): bv32
  {
    Pow32();
    x as bv32
  }

  function AndW(x: Word, y: Word): Word { ToWord(ToBits(x) & ToBits(y)) }
  function OrW(x: Word, y: Word): Word { ToWord(ToBits(x) | ToBits(y)) }
  function XorW(x: Word, y: Word): Word { ToWord(ToBits(x) ^ ToBits(y)) }
  function NotW(x: Word): Word { Pow2(32) - 1 - x }

  function SignedW(x: Word): int { MulDivSpec.Signed(32, x) }

  function ShiftW(op: Shifter.ShiftOp, x: Word, c: nat): Word
  {
    ShiftFits(op, x, c);
    Shifter.Shift(32, op, x, c)
  }

  lemma ShiftFits(op: Shifter.ShiftOp, x: Word, c: nat)
    ensures 0 <= Shifter.Shift(32, op, x, c) < Pow2(32)
  {
    hide Pow2, Shifter.Reverse;
    if op.Srl? { Shifter.ReverseShifted(32, x, c); }
  }

  function MulW(op: MulDivSpec.MulOp, x: Word, y: Word): Word
  {
    MulFits(op, x, y);
    MulDivSpec.MulResult(32, op, x, y)
  }

  lemma MulFits(op: MulDivSpec.MulOp, x: Word, y: Word)
    ensures 0 <= MulDivSpec.MulResult(32, op, x, y) < Pow2(32)
  {
    hide Pow2;
  }

  function DivW(op: MulDivSpec.DivOp, x: Word, y: Word): Word
  {
    DivFits(op, x, y);
    MulDivSpec.DivResult(32, op, x, y)
  }

  lemma DivFits(op: MulDivSpec.DivOp, x: Word, y: Word)
    ensures 0 <= MulDivSpec.DivResult(32, op, x, y) < Pow2(32)
  {
    hide Pow2;
    if y > 0 {
      assert 0 <= x / y <= x by { MulDivSpec.QuotientAtMost(x, y); }
      assert 0 <= x % y < y;
    }
  }

  function Alu(op: AluOp, x: Word, y: Word): Word
  {
    match op
    case Add => Trunc(x + y)
    case Sub => Trunc(x - y)
    case Shifting(shift) => ShiftW(shift, x, y % 32)
    case Slt => if SignedW(x) < SignedW(y) then 1 else 0
    case Sltu => if x < y then 1 else 0
    case Xor => XorW(x, y)
    case Or => OrW(x, y)
    case And => AndW(x, y)
  }

  predicate Holds(cond: Cond, x: Word, y: Word)
  {
    match cond
    case Eq => x == y
    case Ne => x != y
    case Lt => SignedW(x) < SignedW(y)
    case Ge => SignedW(x) >= SignedW(y)
    case Ltu => x < y
    case Geu => x >= y
  }

  // Memory, a byte at a time.
  function Get(m: Mem, a: int): bv8
    requires |m| > 0
  {
    m[a % |m|]
  }

  function Put(m: Mem, a: int, b: bv8): (r: Mem)
    requires |m| > 0
    ensures |r| == |m|
  {
    m[a % |m| := b]
  }

  // The i-th byte of a word, lowest first.
  function ByteOf(x: Word, i: nat): bv8
    requires i < 4
  {
    var shifted := if i == 0 then x else if i == 1 then x / 0x100 else if i == 2 then x / 0x1_0000 else x / 0x100_0000;
    (shifted % 0x100) as bv8
  }

  function HalfValue(b0: bv8, b1: bv8): int { (b0 as int) + 0x100 * (b1 as int) }

  function WordValue(b0: bv8, b1: bv8, b2: bv8, b3: bv8): Word
  {
    Pow32();
    HalfValue(b0, b1) + 0x1_0000 * HalfValue(b2, b3)
  }

  // An n-bit value extended to a word.
  function ExtendValue(unsigned: bool, v: int, sign: int): Word
    requires 0 <= v < 2 * sign && 2 * sign <= 0x1_0000
  {
    Pow32();
    if !unsigned && v >= sign then v + Pow2(32) - 2 * sign else v
  }

  function LoadValue(m: Mem, width: Width, unsigned: bool, a: int): Word
    requires |m| > 0
  {
    match width
    case Byte => ExtendValue(unsigned, Get(m, a) as int, 0x80)
    case Half => ExtendValue(unsigned, HalfValue(Get(m, a), Get(m, a + 1)), 0x8000)
    case Full => WordValue(Get(m, a), Get(m, a + 1), Get(m, a + 2), Get(m, a + 3))
  }

  function StoreValue(m: Mem, width: Width, a: int, x: Word): (r: Mem)
    requires |m| > 0
    ensures |r| == |m|
  {
    var m1 := Put(m, a, ByteOf(x, 0));
    if width.Byte? then m1 else
    var m2 := Put(m1, a + 1, ByteOf(x, 1));
    if width.Half? then m2 else
    Put(Put(m2, a + 2, ByteOf(x, 2)), a + 3, ByteOf(x, 3))
  }

  predicate Aligned(width: Width, a: int)
  {
    match width
    case Byte => true
    case Half => a % 2 == 0
    case Full => a % 4 == 0
  }

  // mcause as a lock with the kind of the last trap; dbgMask is the core's own flag.
  datatype Csrs = Csrs(mie: bool, mepc: int, handler: bool, irq: bool, ecall: bool, nmi: bool, dbgMask: bool)

  datatype Arch = Arch(pc: int, regs: seq<Word>, mem: Mem, csrs: Csrs)

  // The memory has 2^n bytes, 8 <= n <= 16.
  predicate Sized(n: nat) { exists k: nat :: 8 <= k <= 16 && n == Pow2(k) }

  predicate Valid(a: Arch)
  {
    && Sized(|a.mem|) && |a.regs| == 32 && a.regs[0] == 0
    && 0 <= a.pc < |a.mem| && 0 <= a.csrs.mepc < |a.mem|
  }

  lemma SizeFits(n: nat)
    requires Sized(n)
    ensures 256 <= n <= 0x1_0000 && n % 4 == 0
    ensures exists q: int :: Pow2(32) == q * n
  {
    var k: nat :| 8 <= k <= 16 && n == Pow2(k);
    hide *;
    SizePowers(k);
    SizeBounds(n, Pow2(k - 8), Pow2(16 - k));
    assert Pow2(32) == Pow2(32 - k) * n;
  }

  lemma SizePowers(k: nat)
    requires 8 <= k <= 16
    ensures Pow2(k) == 256 * Pow2(k - 8) && Pow2(k) * Pow2(16 - k) == 0x1_0000 && Pow2(32) == Pow2(32 - k) * Pow2(k)
  {
    Pow8();
    hide Pow2;
    Pow2Add(8, k - 8);
    Pow2Add(k, 16 - k);
    Pow2Add(32 - k, k);
  }

  lemma SizeBounds(n: int, high: int, low: int)
    requires high > 0 && low > 0 && n == 256 * high && n * low == 0x1_0000
    ensures 256 <= n <= 0x1_0000 && n % 4 == 0
  {
    MulMono(1, low, n);
    assert low * n == n * low;
    DivMod(n, 4, 64 * high, 0);
  }

  lemma Pow8()
    ensures Pow2(8) == 256 && Pow2(16) == 0x1_0000
  {
    assert Pow2(8) == 256;
    Pow2Add(8, 8);
  }

  function Read(regs: seq<Word>, r: bv5): Word
    requires |regs| == 32
  {
    regs[r as int]
  }

  function Reg(a: Arch, r: bv5): Word
    requires |a.regs| == 32
  {
    Read(a.regs, r)
  }

  // x0 is never written.
  function Write(regs: seq<Word>, rd: bv5, x: Word): (r: seq<Word>)
    requires |regs| == 32
    ensures |r| == 32
    ensures r[0] == regs[0]
  {
    if rd == 0 then regs else regs[rd as int := x]
  }

  // What is written is what is read, x0 excepted, and nothing else changes.
  lemma ReadWrite(regs: seq<Word>, rd: bv5, x: Word, r: bv5)
    requires |regs| == 32
    ensures Read(Write(regs, rd, x), r) == if rd != 0 && r == rd then x else Read(regs, r)
  {
    hide Pow2;
  }

  lemma ZeroRegister(a: Arch)
    requires Valid(a)
    ensures Read(a.regs, 0) == 0
  {
    hide Pow2, Sized;
  }

  function HalfBits(b0: bv8, b1: bv8): bv16 { (b0 as bv16) | ((b1 as bv16) << 8) }

  // The halfword at an address, whose lowest bit is ignored.
  function HalfAt(m: Mem, a: int): bv16
    requires |m| > 0
  {
    var e := a - a % 2;
    HalfBits(Get(m, e), Get(m, e + 1))
  }

  function LongAt(m: Mem, a: int): bool
    requires |m| > 0
  {
    IsLong(HalfAt(m, a))
  }

  function InsnAt(m: Mem, a: int): Insn
    requires |m| > 0
  {
    Decode(HalfAt(m, a), HalfAt(m, a + 2))
  }

  function NextPc(m: Mem, pc: int): int
    requires |m| > 0
  {
    (pc + if LongAt(m, pc) then 4 else 2) % |m|
  }

  // mcause in the standard format.
  function Mcause(c: Csrs): Word
  {
    Pow32();
    if !c.handler then 0 else if c.nmi then 0x8000_0000 else if c.irq then 0x8000_000B
    else if c.ecall then 11 else 3
  }

  function ReadCsr(c: Csrs, name: CsrName, size: nat): Word
    requires Sized(size) && 0 <= c.mepc < size
  {
    SizeFits(size);
    Pow32();
    match name
    case Mstatus => if c.mie then 8 else 0
    case Mepc => c.mepc
    case Mcause => Mcause(c)
  }

  // mstatus holds bit 3 only, mepc wraps at the memory size, mcause is read-only.
  function WriteCsr(c: Csrs, name: CsrName, x: Word, size: nat): (r: Csrs)
    requires 0 <= c.mepc < size
    ensures 0 <= r.mepc < size
  {
    match name
    case Mstatus => c.(mie := x / 8 % 2 == 1)
    case Mepc => c.(mepc := x % size)
    case Mcause => c
  }

  function CsrValue(op: CsrOp, current: Word, source: Word): Word
  {
    match op
    case Rw => source
    case Rs => OrW(source, current)
    case Rc => AndW(NotW(source), current)
  }

  function SourceValue(a: Arch, s: CsrSource): Word
    requires |a.regs| == 32
  {
    match s
    case FromReg(r) => Reg(a, r)
    case FromImm(u) => Pow32(); u as int
  }

  function EffectiveAddress(a: Arch, rs1: bv5, imm: bv32): int
    requires Valid(a)
  {
    (Reg(a, rs1) + ToWord(imm)) % |a.mem|
  }

  // Where a synchronous trap or an accepted interrupt leads.
  function EnterTrap(a: Arch, saved: int, mtvec: int, irq: bool, ecall: bool, nmi: bool, dbg: bool): Arch
  {
    a.(pc := mtvec,
       csrs := a.csrs.(mepc := saved, handler := true, irq := irq, ecall := ecall, nmi := nmi,
                       dbgMask := dbg || a.csrs.dbgMask))
  }

  // Where control goes after an instruction that does not trap.
  function Target(a: Arch, insn: Insn): int
    requires Valid(a)
  {
    SizeFits(|a.mem|);
    var next := NextPc(a.mem, a.pc);
    match insn
    case Jal(rd, imm) => (a.pc + ToWord(imm)) % |a.mem|
    case Jalr(rd, rs1, imm) => var t := EffectiveAddress(a, rs1, imm); t - t % 2
    case Branch(cond, rs1, rs2, imm) =>
      if Holds(cond, Reg(a, rs1), Reg(a, rs2)) then (a.pc + ToWord(imm)) % |a.mem| else next
    case Mret => a.csrs.mepc
    case _ => next
  }

  // The register an instruction writes; x0 when it writes none.
  function Destination(insn: Insn): bv5
  {
    match insn
    case Lui(rd, imm) => rd
    case Auipc(rd, imm) => rd
    case Jal(rd, imm) => rd
    case Jalr(rd, rs1, imm) => rd
    case Load(width, unsigned, rd, rs1, imm) => rd
    case OpImm(op, rd, rs1, imm) => rd
    case ShiftImm(op, rd, rs1, amount) => rd
    case OpReg(op, rd, rs1, rs2) => rd
    case MulReg(op, rd, rs1, rs2) => rd
    case DivReg(op, rd, rs1, rs2) => rd
    case Csr(op, rd, source, name) => rd
    case _ => 0
  }

  // What it writes there.
  function Result(a: Arch, insn: Insn): Word
    requires Valid(a)
  {
    SizeFits(|a.mem|);
    Pow32();
    match insn
    case Lui(rd, imm) => ToWord(imm)
    case Auipc(rd, imm) => (a.pc + ToWord(imm)) % |a.mem|
    case Jal(rd, imm) => NextPc(a.mem, a.pc)
    case Jalr(rd, rs1, imm) => NextPc(a.mem, a.pc)
    case Load(width, unsigned, rd, rs1, imm) => LoadValue(a.mem, width, unsigned, EffectiveAddress(a, rs1, imm))
    case OpImm(op, rd, rs1, imm) => Alu(op, Reg(a, rs1), ToWord(imm))
    case ShiftImm(op, rd, rs1, amount) => ShiftW(op, Reg(a, rs1), amount as int)
    case OpReg(op, rd, rs1, rs2) => Alu(op, Reg(a, rs1), Reg(a, rs2))
    case MulReg(op, rd, rs1, rs2) => MulW(op, Reg(a, rs1), Reg(a, rs2))
    case DivReg(op, rd, rs1, rs2) => DivW(op, Reg(a, rs1), Reg(a, rs2))
    case Csr(op, rd, source, name) => ReadCsr(a.csrs, name, |a.mem|)
    case _ => 0
  }

  function Stored(a: Arch, insn: Insn): (m: Mem)
    requires Valid(a)
    ensures |m| == |a.mem|
  {
    if insn.Store? then StoreValue(a.mem, insn.width, EffectiveAddress(a, insn.rs1, insn.imm), Reg(a, insn.rs2))
    else a.mem
  }

  function CsrsAfter(a: Arch, insn: Insn): (c: Csrs)
    requires Valid(a)
    ensures 0 <= c.mepc < |a.mem|
  {
    SizeFits(|a.mem|);
    match insn
    case Csr(op, rd, source, name) =>
      WriteCsr(a.csrs, name, CsrValue(op, ReadCsr(a.csrs, name, |a.mem|), SourceValue(a, source)), |a.mem|)
    case Mret => a.csrs.(handler := false, dbgMask := false)
    case _ => a.csrs
  }

  // ECALL and EBREAK trap, unless a trap is already being handled.
  predicate Traps(a: Arch, insn: Insn) { (insn.Ecall? || insn.Ebreak?) && !a.csrs.handler }

  // One instruction, at the program counter, with no asynchronous trap.
  function Execute(a: Arch, insn: Insn, mtvec: int): Arch
    requires Valid(a)
  {
    if Traps(a, insn) then EnterTrap(a, a.pc, mtvec, false, insn.Ecall?, false, false)
    else Arch(Target(a, insn), Write(a.regs, Destination(insn), Result(a, insn)), Stored(a, insn), CsrsAfter(a, insn))
  }

  function Step(a: Arch, mtvec: int): Arch
    requires Valid(a)
  {
    Execute(a, InsnAt(a.mem, a.pc), mtvec)
  }
}
