/** The AttoRV32 core, clock by clock: registers, combinational signals, and the clock edge.
    Configuration: NRV_M with the radix-2 serial multiplier, NRV_SRA, the serial shifter,
    two register-file read ports, RV32I. */
module Core {
  import opened Arith
  import opened Isa
  import opened Machine
  import opened MulDivSpec
  import Decompressor
  import Radix2
  import Divider
  import Shifter

  datatype State = FetchInstr | WaitInstr | ExecuteInstr | WaitUnit

  // A memory word as its four byte lanes, lowest address first.
  datatype Lanes = Lanes(b0: bv8, b1: bv8, b2: bv8, b3: bv8)

  // The registers of the fetch state machine. Bits 1:0 of instr are not registered in the
  // source, and no signal below reads them.
  datatype Front = Front(
    state: State, pc: int, instr: bv32, longInstr: bool, secondHalf: bool, skipFetch: bool,
    cachedAddr: int, cachedData: Lanes, rs1: Word, rs2: Word)

  // The register file, the CSR and trap registers, and the arithmetic units.
  datatype Back = Back(
    regs: seq<Word>, mstatus: bool, mepc: int, mcause: bool, mcauseIrq: bool, mcauseEcall: bool, mcauseNmi: bool,
    dbgMask: bool, mul: Radix2.Regs, div: Divider.Regs, shift: Shifter.Regs)

  datatype Core = Core(front: Front, back: Back)

  datatype Inputs = Inputs(rdata: Lanes, rbusy: bool, wbusy: bool, irq: bool, nmi: bool, dbg: bool)

  // size is 2^ADDR_WIDTH.
  datatype Params = Params(size: nat, mtvec: int)

  predicate ValidParams(p: Params) { Sized(p.size) && 0 <= p.mtvec < p.size }

  predicate ValidCore(p: Params, c: Core)
  {
    && ValidParams(p) && 0 <= c.front.pc < p.size && 0 <= c.back.mepc < p.size && 0 <= c.front.cachedAddr < p.size / 4
    && |c.back.regs| == 32 && c.back.regs[0] == 0
  }

  // Instruction decoding.
  function Op5(i: bv32): bv32 { (i >> 2) & 31 }
  predicate IsLoad(i: bv32) { Op5(i) == 0 }
  predicate IsAluImm(i: bv32) { Op5(i) == 4 }
  predicate IsAuipc(i: bv32) { Op5(i) == 5 }
  predicate IsStore(i: bv32) { Op5(i) == 8 }
  predicate IsAluReg(i: bv32) { Op5(i) == 12 }
  predicate IsLui(i: bv32) { Op5(i) == 13 }
  predicate IsBranch(i: bv32) { Op5(i) == 24 }
  predicate IsJalr(i: bv32) { Op5(i) == 25 }
  predicate IsJal(i: bv32) { Op5(i) == 27 }
  predicate IsSystem(i: bv32) { Op5(i) == 28 }
  predicate IsAlu(i: bv32) { IsAluImm(i) || IsAluReg(i) }
  // MULH and DIVU share funct3 with the shifts and start the shifter too.
  predicate IsShift(i: bv32) { IsAlu(i) && (Funct3(i) == 1 || Funct3(i) == 5) }
  predicate FuncM(i: bv32) { (i >> 25) & 1 == 1 }
  predicate IsDivide(i: bv32) { IsAluReg(i) && FuncM(i) && Funct3(i) >= 4 }
  predicate IsMul(i: bv32) { IsAluReg(i) && FuncM(i) && Funct3(i) < 4 }
  predicate IsMret(i: bv32) { IsSystem(i) && Funct3(i) == 0 && i >> 20 == 0x302 }
  predicate IsWfi(i: bv32) { IsSystem(i) && Funct3(i) == 0 && i >> 20 == 0x105 }
  predicate IsEnvTrap(i: bv32) { IsSystem(i) && Funct3(i) == 0 && !IsMret(i) && !IsWfi(i) }
  predicate IsEcall(i: bv32) { IsEnvTrap(i) && (i >> 20) & 1 == 0 }

  predicate NeedToWait(i: bv32) { IsLoad(i) || IsStore(i) || IsDivide(i) || IsShift(i) || IsMul(i) }

  function UnitMulOp(i: bv32): MulOp {
    var f := Funct3(i);
    if f == 1 then Mulh else if f == 2 then Mulhsu else if f == 3 then Mulhu else Mul
  }

  // instr[12] clear means signed, instr[13] selects the remainder.
  function UnitDivOp(i: bv32): DivOp {
    if (i >> 13) & 1 == 0 then if (i >> 12) & 1 == 0 then Div else Divu
    else if (i >> 12) & 1 == 0 then Rem else Remu
  }

  function UnitShiftOp(i: bv32): Shifter.ShiftOp {
    if Funct3(i) == 1 then Shifter.Sll
    else if Funct3(i) == 5 && (i >> 30) & 1 == 1 then Shifter.Sra
    else Shifter.Srl
  }

  // ALU operands, the adder, and the 33-bit subtractor with its borrow on top.
  function AluIn1(c: Core): Word { c.front.rs1 }
  function AluIn2(c: Core): Word {
    if IsAluReg(c.front.instr) || IsBranch(c.front.instr) then c.front.rs2 else ToWord(ImmI(c.front.instr))
  }
  function AluPlus(c: Core): Word { Trunc(AluIn1(c) + AluIn2(c)) }
  function AluMinus(c: Core): int { (Pow2(32) + NotW(AluIn2(c)) + AluIn1(c) + 1) % Pow2(33) }
  function Top(x: Word): bool { x >= Pow2(31) }
  predicate Below(c: Core) { AluMinus(c) >= Pow2(32) }
  predicate Less(c: Core) { if Top(AluIn1(c)) != Top(AluIn2(c)) then Top(AluIn1(c)) else Below(c) }
  predicate Same(c: Core) { Trunc(AluMinus(c)) == 0 }

  predicate Busy(c: Core) { c.back.div.Busy() || c.back.mul.Busy() || c.back.shift.Busy() }

  function AluOutMulDiv(c: Core): Word {
    if Funct3(c.front.instr) >= 4 then
      Trunc(Divider.Read(32, UnitDivOp(c.front.instr), AluIn1(c), AluIn2(c), c.back.div))
    else Trunc(c.back.mul.Read(32, UnitMulOp(c.front.instr)))
  }

  // The one-hot selected OR of the source.
  function AluOut(c: Core): Word {
    var f := Funct3(c.front.instr);
    if IsAluReg(c.front.instr) && FuncM(c.front.instr) then AluOutMulDiv(c)
    else if f == 0 then
      if (c.front.instr >> 30) & 1 == 1 && (c.front.instr >> 5) & 1 == 1 then Trunc(AluMinus(c)) else AluPlus(c)
    else if f == 2 then if Less(c) then 1 else 0
    else if f == 3 then if Below(c) then 1 else 0
    else if f == 4 then XorW(AluIn1(c), AluIn2(c))
    else if f == 6 then OrW(AluIn1(c), AluIn2(c))
    else if f == 7 then AndW(AluIn1(c), AluIn2(c))
    else Trunc(c.back.shift.data)
  }

  predicate Predicate(c: Core) {
    var f := Funct3(c.front.instr);
    if f == 0 then Same(c) else if f == 1 then !Same(c)
    else if f == 4 then Less(c) else if f == 5 then !Less(c)
    else if f == 6 then Below(c) else if f == 7 then !Below(c)
    else false
  }

  // Addresses of ADDR_WIDTH bits.
  function PcInc(p: Params, c: Core): (a: int)
    requires ValidCore(p, c)
    ensures 0 <= a < p.size
  {
    (c.front.pc + if c.front.longInstr then 4 else 2) % p.size
  }

  function PcPlusImm(p: Params, c: Core): (a: int)
    requires ValidCore(p, c)
    ensures 0 <= a < p.size
  {
    var imm := if (c.front.instr >> 3) & 1 == 1 then ImmJ(c.front.instr)
      else if (c.front.instr >> 4) & 1 == 1 then ImmU(c.front.instr) else ImmB(c.front.instr);
    (c.front.pc + ToWord(imm) % p.size) % p.size
  }

  function LoadStoreAddr(p: Params, c: Core): (a: int)
    requires ValidCore(p, c)
    ensures 0 <= a < p.size
  {
    var imm := if (c.front.instr >> 5) & 1 == 1 then ImmS(c.front.instr) else ImmI(c.front.instr);
    (c.front.rs1 % p.size + ToWord(imm) % p.size) % p.size
  }

  function PcNew(p: Params, c: Core): (a: int)
    requires ValidCore(p, c)
    ensures 0 <= a < p.size
  {
    if IsJalr(c.front.instr) then AluPlus(c) % p.size - AluPlus(c) % p.size % 2
    else if IsJal(c.front.instr) || (IsBranch(c.front.instr) && Predicate(c)) then PcPlusImm(p, c)
    else if IsMret(c.front.instr) then c.back.mepc
    else PcInc(p, c)
  }

  function FetchAddr(p: Params, c: Core): (a: int)
    requires ValidCore(p, c)
    ensures 0 <= a < p.size
  {
    if c.front.secondHalf then (c.front.pc + 4) % p.size else c.front.pc
  }

  function MemAddr(p: Params, c: Core): (a: int)
    requires ValidCore(p, c)
    ensures 0 <= a < p.size
  {
    if c.front.state.WaitInstr? || c.front.state.FetchInstr? then
      FetchAddr(p, c) / 4 * 4
    else LoadStoreAddr(p, c)
  }

  // The index of the word that mem_addr lies in.
  function MemWord(p: Params, c: Core): (w: int)
    requires ValidCore(p, c)
    ensures 0 <= w < p.size / 4
  {
    SizeFits(p.size);
    WordIndex(MemAddr(p, c), p.size);
    MemAddr(p, c) / 4
  }

  lemma WordIndex(a: int, n: int)
    requires 0 <= a < n && n % 4 == 0
    ensures 0 <= a / 4 < n / 4 && 4 * (a / 4) + 3 < n
  {
  }

  predicate MemRstrb(c: Core) { (c.front.state.ExecuteInstr? && IsLoad(c.front.instr)) || c.front.state.FetchInstr? }

  // Traps.
  predicate Interrupt(c: Core, x: Inputs) { x.irq && c.back.mstatus && !c.back.mcause }
  predicate IrqAccepted(c: Core, x: Inputs) { Interrupt(c, x) && c.front.state.ExecuteInstr? }
  predicate EnvAccepted(c: Core) { IsEnvTrap(c.front.instr) && c.front.state.ExecuteInstr? && !c.back.mcause }
  predicate NmiAccepted(c: Core, x: Inputs) { x.nmi && !c.back.mcause && c.front.state.ExecuteInstr? }
  predicate DbgAccepted(c: Core, x: Inputs) { x.dbg && !c.back.dbgMask && c.front.state.ExecuteInstr? }
  predicate TrapEntry(c: Core, x: Inputs) {
    IrqAccepted(c, x) || EnvAccepted(c) || NmiAccepted(c, x) || DbgAccepted(c, x)
  }
  predicate WfiStall(c: Core, x: Inputs) {
    IsWfi(c.front.instr) && c.front.state.ExecuteInstr? && !(x.irq || x.nmi || x.dbg)
  }

  // CSRs. An address other than the three reads as zero and ignores writes.
  function McauseRead(c: Core): Word {
    Pow32();
    if !c.back.mcause then 0 else if c.back.mcauseNmi then 0x8000_0000 else if c.back.mcauseIrq then 0x8000_000B
    else if c.back.mcauseEcall then 0xB else 3
  }

  function CsrRead(p: Params, c: Core): Word
    requires ValidCore(p, c)
  {
    SizeFits(p.size);
    Pow32();
    var a := c.front.instr >> 20;
    if a == 0x300 then if c.back.mstatus then 8 else 0
    else if a == 0x341 then c.back.mepc
    else if a == 0x342 then McauseRead(c)
    else 0
  }

  function CsrModifier(c: Core): Word {
    if (c.front.instr >> 14) & 1 == 1 then ToWord((c.front.instr >> 15) & 31) else c.front.rs1
  }

  function CsrWrite(p: Params, c: Core): Word
    requires ValidCore(p, c)
  {
    var k := (c.front.instr >> 12) & 3;
    if k == 2 then OrW(CsrModifier(c), CsrRead(p, c))
    else if k == 3 then AndW(NotW(CsrModifier(c)), CsrRead(p, c))
    else CsrModifier(c)
  }

  predicate CsrWriteEnable(c: Core) {
    IsSystem(c.front.instr) && Funct3(c.front.instr) != 0 && c.front.state.ExecuteInstr?
  }

  // Load and store lanes.
  function LoadHalf(p: Params, c: Core, x: Inputs): (bv8, bv8)
    requires ValidCore(p, c)
  {
    if LoadStoreAddr(p, c) / 2 % 2 == 1 then (x.rdata.b2, x.rdata.b3) else (x.rdata.b0, x.rdata.b1)
  }

  function LoadData(p: Params, c: Core, x: Inputs): Word
    requires ValidCore(p, c)
  {
    var half := LoadHalf(p, c, x);
    var unsigned := (c.front.instr >> 14) & 1 == 1;
    if (c.front.instr >> 12) & 3 == 0 then
      ExtendValue(unsigned, (if LoadStoreAddr(p, c) % 2 == 1 then half.1 else half.0) as int, 0x80)
    else if (c.front.instr >> 12) & 3 == 1 then ExtendValue(unsigned, HalfValue(half.0, half.1), 0x8000)
    else WordValue(x.rdata.b0, x.rdata.b1, x.rdata.b2, x.rdata.b3)
  }

  function MemWdata(p: Params, c: Core): Lanes
    requires ValidCore(p, c)
  {
    var odd, high := LoadStoreAddr(p, c) % 2 == 1, LoadStoreAddr(p, c) / 2 % 2 == 1;
    Lanes(ByteOf(c.front.rs2, 0),
          if odd then ByteOf(c.front.rs2, 0) else ByteOf(c.front.rs2, 1),
          if high then ByteOf(c.front.rs2, 0) else ByteOf(c.front.rs2, 2),
          if odd then ByteOf(c.front.rs2, 0) else if high then ByteOf(c.front.rs2, 1) else ByteOf(c.front.rs2, 3))
  }

  // Whether a store writes byte lane n.
  predicate MemWmask(p: Params, c: Core, n: nat)
    requires ValidCore(p, c) && n < 4
  {
    && c.front.state.ExecuteInstr? && IsStore(c.front.instr)
    && (if (c.front.instr >> 12) & 3 == 0 then n == LoadStoreAddr(p, c) % 4
        else if (c.front.instr >> 12) & 3 == 1 then n / 2 == LoadStoreAddr(p, c) / 2 % 2
        else true)
  }

  // Write-back.
  predicate WriteBack(c: Core) {
    !IsBranch(c.front.instr) && !IsStore(c.front.instr) && (c.front.state.ExecuteInstr? || c.front.state.WaitUnit?)
  }

  function WriteBackData(p: Params, c: Core, x: Inputs): Word
    requires ValidCore(p, c)
  {
    SizeFits(p.size);
    Pow32();
    if IsSystem(c.front.instr) then CsrRead(p, c)
    else if IsLui(c.front.instr) then ToWord(ImmU(c.front.instr))
    else if IsAlu(c.front.instr) then AluOut(c)
    else if IsAuipc(c.front.instr) then PcPlusImm(p, c)
    else if IsJalr(c.front.instr) || IsJal(c.front.instr) then PcInc(p, c)
    else if IsLoad(c.front.instr) then LoadData(p, c, x)
    else 0
  }

  // Fetch: the cached word, and the 32 bits given to the decompressor.
  function LoHalf(w: Lanes): bv16 { HalfBits(w.b0, w.b1) }
  function HiHalf(w: Lanes): bv16 { HalfBits(w.b2, w.b3) }

  predicate CurrentHit(c: Core) { c.front.cachedAddr == c.front.pc / 4 }
  predicate NextHit(p: Params, c: Core)
    requires ValidCore(p, c)
  {
    c.front.cachedAddr == PcNew(p, c) / 4
  }
  function CachedMem(c: Core, x: Inputs): Lanes { if CurrentHit(c) then c.front.cachedData else x.rdata }
  predicate UnalignedLong(w: Lanes, pc: int) { IsLong(HiHalf(w)) && pc / 2 % 2 == 1 }

  function DecompInput(c: Core, x: Inputs): bv32 {
    if c.front.pc / 2 % 2 == 1 then Join(HiHalf(CachedMem(c, x)), LoHalf(x.rdata))
    else Join(LoHalf(CachedMem(c, x)), HiHalf(CachedMem(c, x)))
  }

  function Decompressed(c: Core, x: Inputs): bv32 { Decompressor.Decompress(DecompInput(c, x)) }

  // The clock edge, one register group at a time.
  function NextRegs(p: Params, c: Core, x: Inputs): (r: seq<Word>)
    requires ValidCore(p, c)
    ensures |r| == 32 && r[0] == c.back.regs[0]
  {
    if WriteBack(c) then Write(c.back.regs, Rd(c.front.instr), WriteBackData(p, c, x)) else c.back.regs
  }

  predicate AluWr(c: Core) { c.front.state.ExecuteInstr? && IsAlu(c.front.instr) }

  function NextMul(c: Core): Radix2.Regs {
    if AluWr(c) && IsMul(c.front.instr) then Radix2.Load(32, UnitMulOp(c.front.instr), AluIn1(c), AluIn2(c))
    else Radix2.Tick(32, c.back.mul)
  }

  function NextDiv(c: Core): Divider.Regs {
    if AluWr(c) && IsDivide(c.front.instr) then
      Divider.Load(32, UnitDivOp(c.front.instr), AluIn1(c), AluIn2(c), c.back.div)
    else Divider.Tick(UnitDivOp(c.front.instr), c.back.div)
  }

  // aluIn2[4:0]: of rs2, or of the immediate, where it is instr[24:20].
  function ShiftAmount(c: Core): nat { if IsAluReg(c.front.instr) then c.front.rs2 % 32 else Rs2(c.front.instr) as int }

  function NextShift(c: Core): Shifter.Regs {
    if AluWr(c) && IsShift(c.front.instr) then Shifter.Load(UnitShiftOp(c.front.instr), AluIn1(c), ShiftAmount(c))
    else Shifter.Tick(32, c.back.shift)
  }

  // A trap saves the next PC when it is asynchronous, the current one otherwise.
  function NextMepc(p: Params, c: Core, x: Inputs): (a: int)
    requires ValidCore(p, c)
    ensures 0 <= a < p.size
  {
    if TrapEntry(c, x) then
      if IrqAccepted(c, x) || NmiAccepted(c, x) || DbgAccepted(c, x) then PcNew(p, c) else c.front.pc
    else if CsrWriteEnable(c) && c.front.instr >> 20 == 0x341 then CsrWrite(p, c) % p.size
    else c.back.mepc
  }

  function NextMstatus(p: Params, c: Core): bool
    requires ValidCore(p, c)
  {
    if CsrWriteEnable(c) && c.front.instr >> 20 == 0x300 then CsrWrite(p, c) / 8 % 2 == 1 else c.back.mstatus
  }

  // The register file, trap and CSR registers, and units after the clock.
  function NextBack(p: Params, c: Core, x: Inputs): (n: Back)
    requires ValidCore(p, c)
    ensures |n.regs| == 32 && n.regs[0] == 0 && 0 <= n.mepc < p.size
  {
    var trap := TrapEntry(c, x);
    var mret := IsMret(c.front.instr) && c.front.state.ExecuteInstr?;
    Back(NextRegs(p, c, x), NextMstatus(p, c), NextMepc(p, c, x),
         if trap then true else if mret then false else c.back.mcause,
         if trap then IrqAccepted(c, x) else c.back.mcauseIrq,
         if trap then EnvAccepted(c) && IsEcall(c.front.instr) else c.back.mcauseEcall,
         if trap then NmiAccepted(c, x) else c.back.mcauseNmi,
         if DbgAccepted(c, x) then true else if mret then false else c.back.dbgMask,
         NextMul(c), NextDiv(c), NextShift(c))
  }

  // The fetch state machine, state by state.
  predicate ValidFront(p: Params, f: Front) { 0 <= f.pc < p.size && 0 <= f.cachedAddr < p.size / 4 }

  function Filled(p: Params, c: Core, x: Inputs): (f: Front)
    requires ValidCore(p, c)
    ensures ValidFront(p, f)
  {
    if !CurrentHit(c) || c.front.secondHalf then c.front.(cachedAddr := MemWord(p, c), cachedData := x.rdata)
    else c.front
  }

  function AfterWaitInstr(p: Params, c: Core, x: Inputs): (f: Front)
    requires ValidCore(p, c)
    ensures ValidFront(p, f)
  {
    var d := Decompressed(c, x);
    var again := UnalignedLong(CachedMem(c, x), c.front.pc) && !c.front.secondHalf;
    Filled(p, c, x).(instr := d, longInstr := DecompInput(c, x) & 3 == 3,
      rs1 := Read(c.back.regs, Rs1(d)), rs2 := Read(c.back.regs, Rs2(d)),
      secondHalf := again, state := if again then FetchInstr else ExecuteInstr)
  }

  function AfterExecute(p: Params, c: Core, x: Inputs): (f: Front)
    requires ValidCore(p, c)
    ensures ValidFront(p, f)
  {
    if WfiStall(c, x) then c.front
    else if TrapEntry(c, x) then
      c.front.(pc := p.mtvec, skipFetch := false,
               state := if NeedToWait(c.front.instr) && IrqAccepted(c, x) then WaitUnit else FetchInstr)
    else
      var hit := NextHit(p, c);
      var unaligned := UnalignedLong(c.front.cachedData, PcNew(p, c));
      c.front.(pc := PcNew(p, c), skipFetch := hit && !unaligned, secondHalf := hit && unaligned,
               state := if NeedToWait(c.front.instr) then WaitUnit
                        else if hit && !unaligned then WaitInstr else FetchInstr)
  }

  function NextFront(p: Params, c: Core, x: Inputs): (f: Front)
    requires ValidCore(p, c)
    ensures ValidFront(p, f)
  {
    match c.front.state
    case WaitInstr => if x.rbusy then c.front else AfterWaitInstr(p, c, x)
    case ExecuteInstr => AfterExecute(p, c, x)
    case WaitUnit =>
      if !Busy(c) && !x.rbusy && !x.wbusy then c.front.(state := if c.front.skipFetch then WaitInstr else FetchInstr)
      else c.front
    case FetchInstr => c.front.(state := WaitInstr)
  }

  // The clock edge.
  function Next(p: Params, c: Core, x: Inputs): (r: Core)
    requires ValidCore(p, c)
    ensures ValidCore(p, r)
  {
    Core(NextFront(p, c, x), NextBack(p, c, x))
  }
}
