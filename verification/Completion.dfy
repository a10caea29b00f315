/** S_WAIT: loads, stores, shifts, multiplications and divisions, from the clock after
    S_EXECUTE until the unit or the bus is done. */
module Completion {
  import opened Arith
  import opened Isa
  import opened Machine
  import opened Core
  import opened Bus
  import opened Signals
  import opened Datapath
  import opened Execution
  import ByteLanes
  import Divider
  import FetchUnit
  import MulDivSpec
  import Radix2
  import Shifter

  /* Work left over from an instruction that an NMI aborted may still be running in the
     units, but never long enough to outlast a division. */
  predicate UnitsInv(c: Core)
  {
    && (c.back.mul.count > 0 ==> !c.back.mul.negatePending)
    && c.back.mul.Remaining() <= (match c.front.state case ExecuteInstr => 31 case WaitInstr => 32 case _ => 33)
    && c.back.shift.count <= 31
    && 0 <= c.back.div.msk < Pow2(32)
  }

  lemma UnitsStep(p: Params, s: System, x: Inputs)
    requires ValidSystem(p, s) && UnitsInv(s.core)
    ensures UnitsInv(NextSystem(p, s, x).core)
  {
    hide Pow2, ValidCore, NextFront, NextRegs, NextMstatus, NextMepc, TrapEntry, IsMret;
    MulStep(s.core);
    MaskStep(s.core);
    Pacing(p, s.core, x);
  }

  lemma MulStep(c: Core)
    requires UnitsInv(c)
    ensures var m, starts := NextMul(c), AluWr(c) && IsMul(c.front.instr);
      && (m.count > 0 ==> !m.negatePending)
      && (starts ==> m.Remaining() <= 33)
      && (!starts ==> m.Remaining() == if c.back.mul.Busy() then c.back.mul.Remaining() - 1 else 0)
      && (c.back.mul.Busy() <==> c.back.mul.Remaining() > 0)
  {
    hide Pow2, Radix2.Tick;
    Radix2.TickRemaining(32, c.back.mul);
  }

  lemma MaskStep(c: Core)
    requires UnitsInv(c)
    ensures 0 <= NextDiv(c).msk < Pow2(32)
    ensures NextShift(c).count <= 31
  {
    Doubling();
    hide Pow2, MulDivSpec.Magnitude, Divider.OrBit;
  }

  // The FSM reaches S_WAIT_INSTR and S_EXECUTE only with less work left.
  lemma Pacing(p: Params, c: Core, x: Inputs)
    requires ValidCore(p, c)
    ensures var t := NextFront(p, c, x).state;
      && (t.ExecuteInstr? ==> c.front.state.WaitInstr? || c.front.state.ExecuteInstr?)
      && (t.WaitInstr? && c.front.state.WaitUnit? ==> !c.back.mul.Busy())
      && (t.WaitInstr? && c.front.state.ExecuteInstr? ==> !IsMul(c.front.instr))
      && (t.ExecuteInstr? && c.front.state.ExecuteInstr? ==> !IsMul(c.front.instr))
  {
    hide ValidCore, TrapEntry, IrqAccepted, PcNew, NextHit, UnalignedLong, Decompressed, DecompInput, CachedMem,
      Filled, IsAluReg;
    WfiIsNoMul(c.front.instr);
  }

  lemma WfiIsNoMul(i: bv32)
    ensures IsWfi(i) ==> !IsMul(i)
  {
  }

  // The value an instruction in S_WAIT will have written to its register when it is done:
  // what is left to do turns the unit's registers into it.
  predicate WillYield(p: Params, s: System, insn: Insn, before: Divider.Regs, k: nat, v: Word)
    requires ValidSystem(p, s)
  {
    var c := s.core;
    match insn
    case Load(width, unsigned, rd, rs1, imm) =>
      var a := LoadStoreAddr(p, c);
      && s.pending == Reading(a / 4) && Aligned(width, a)
      && |s.mem| > 0 && v == LoadValue(s.mem, width, unsigned, a)
    case ShiftImm(op, rd, rs1, amount) => s.pending.Nothing? && WillShift(c.back.shift, op, v)
    case OpReg(op, rd, rs1, rs2) => s.pending.Nothing? && op.Shifting? && WillShift(c.back.shift, op.shift, v)
    case MulReg(op, rd, rs1, rs2) =>
      && s.pending.Nothing? && v == MulW(op, c.front.rs1, c.front.rs2)
      && c.back.mul == Radix2.Ticks(32, Radix2.Load(32, op, c.front.rs1, c.front.rs2), k)
    case DivReg(op, rd, rs1, rs2) =>
      && s.pending.Nothing? && v == DivW(op, c.front.rs1, c.front.rs2)
      && k <= 32 && c.back.div == Divider.Ticks(op, Divider.Load(32, op, c.front.rs1, c.front.rs2, before), k)
      && c.back.mul.Remaining() <= 32 - k && c.back.shift.count <= 32 - k
    case _ => false
  }

  predicate WillShift(r: Shifter.Regs, op: Shifter.ShiftOp, v: Word)
  {
    0 <= r.data < Pow2(32) && r.left == op.Sll? && r.arith == op.Sra? && Shifter.Shift(32, op, r.data, r.count) == v
  }

  // k clocks into S_WAIT, with goal the state the next S_EXECUTE is to find.
  predicate Waiting(p: Params, s: System, insn: Insn, goal: Arch, before: Divider.Regs, k: nat, v: Word)
  {
    && ValidSystem(p, s) && s.core.front.state.WaitUnit? && Encodes(s.core.front.instr, insn) && !insn.Illegal?
      && !Immediate(insn)
    && s.core.front.pc == goal.pc && s.mem == goal.mem && CsrsOf(s.core.back) == goal.csrs
    && if insn.Store? then s.core.back.regs == goal.regs
       else WillYield(p, s, insn, before, k, v) && Write(s.core.back.regs, Rd(s.core.front.instr), v) == goal.regs
  }

  lemma WriteTwice(regs: seq<Word>, rd: bv5, u: Word, v: Word)
    requires |regs| == 32
    ensures Write(Write(regs, rd, u), rd, v) == Write(regs, rd, v)
  {
    hide Pow2;
  }

  lemma NotImmediate(insn: Insn)
    ensures !Immediate(insn) ==>
      insn.Load? || insn.Store? || insn.ShiftImm? || insn.OpReg? || insn.MulReg? || insn.DivReg?
    ensures insn.OpReg? && !Immediate(insn) ==> insn.op.Shifting?
  {
  }

  // The result multiplexer in the last clock of S_WAIT.
  lemma UnitResult(p: Params, s: System, x: Inputs, insn: Insn, before: Divider.Regs, k: nat, v: Word)
    requires ValidSystem(p, s) && s.core.front.state.WaitUnit? && Encodes(s.core.front.instr, insn)
    requires !Immediate(insn) && !insn.Store?
    requires WillYield(p, s, insn, before, k, v) && BusOk(p, s, x) && !Busy(s.core) && !x.rbusy
    ensures WriteBackData(p, s.core, x) == v
  {
    hide Pow2, WillYield, ValidCore, AluOut, LoadData, Encodes, Immediate, IsAluImm, IsAluReg, IsLoad, IsSystem,
      IsLui;
    NotImmediate(insn);
    ClassSignals(s.core.front.instr, insn);
    if insn.Load? {
      LoadResult(p, s, x, insn, before, k, v);
    } else if insn.MulReg? {
      MulResult(p, s, insn, before, k, v);
    } else if insn.DivReg? {
      DivResult(p, s, insn, before, k, v);
    } else {
      ShiftResult(p, s, insn, before, k, v);
    }
  }

  lemma LoadResult(p: Params, s: System, x: Inputs, insn: Insn, before: Divider.Regs, k: nat, v: Word)
    requires ValidSystem(p, s) && s.core.front.state.WaitUnit? && Encodes(s.core.front.instr, insn) && insn.Load?
    requires WillYield(p, s, insn, before, k, v) && BusOk(p, s, x) && !x.rbusy
    ensures LoadData(p, s.core, x) == v
  {
    hide Pow2, Encodes, LoadStoreAddr, LoadData, LoadValue, WordAt;
    Fits(p);
    ByteLanes.LoadCorrect(p, s.core, x, s.mem, insn);
  }

  lemma ShiftResult(p: Params, s: System, insn: Insn, before: Divider.Regs, k: nat, v: Word)
    requires ValidSystem(p, s) && Encodes(s.core.front.instr, insn)
    requires (insn.ShiftImm? || (insn.OpReg? && insn.op.Shifting?))
    requires WillYield(p, s, insn, before, k, v) && !s.core.back.shift.Busy()
    ensures AluOut(s.core) == v
  {
    hide Pow2, ValidCore, Encodes, IsAluReg, IsAluImm, FuncM, Shifter.Shift, AluOutMulDiv;
    ClassSignals(s.core.front.instr, insn);
    UnitSignals(s.core.front.instr, insn);
    Shifter.NoShift(32, if insn.ShiftImm? then insn.shiftOp else insn.op.shift, s.core.back.shift.data);
    DivMod(s.core.back.shift.data, Pow2(32), 0, s.core.back.shift.data);
  }

  lemma MulResult(p: Params, s: System, insn: Insn, before: Divider.Regs, k: nat, v: Word)
    requires ValidSystem(p, s) && Encodes(s.core.front.instr, insn) && insn.MulReg?
    requires WillYield(p, s, insn, before, k, v) && !s.core.back.mul.Busy()
    ensures AluOut(s.core) == v
  {
    hide Pow2, ValidCore, Encodes, Radix2.Load, Radix2.Tick, MulDivSpec.MulResult, UnitMulOp;
    UnitSignals(s.core.front.instr, insn);
    MulCode(s.core.front.instr);
    var c := s.core;
    var start := Radix2.Load(32, insn.mulOp, c.front.rs1, c.front.rs2);
    Radix2.Correct(32, insn.mulOp, c.front.rs1, c.front.rs2);
    StaysDone(start, start.Remaining(), k);
    DivMod(v, Pow2(32), 0, v);
  }

  lemma MulCode(i: bv32)
    ensures IsMul(i) ==> IsAluReg(i) && FuncM(i) && Funct3(i) < 4
    ensures IsDivide(i) ==> IsAluReg(i) && FuncM(i) && Funct3(i) >= 4
    ensures IsAluReg(i) ==> !IsAluImm(i)
  {
  }

  // A multiplier that is done stays as it is, so not being busy means being done.
  lemma {:induction false} StaysDone(r: Radix2.Regs, n: nat, k: nat)
    requires forall j :: 0 <= j < n ==> Radix2.Ticks(32, r, j).Busy()
    requires !Radix2.Ticks(32, r, n).Busy() && !Radix2.Ticks(32, r, k).Busy()
    ensures Radix2.Ticks(32, r, k) == Radix2.Ticks(32, r, n)
    decreases k
  {
    if k > n {
      if Radix2.Ticks(32, r, k - 1).Busy() {
        StillDone(r, n, k - 1);
      }
      StaysDone(r, n, k - 1);
    }
  }

  lemma {:induction false} StillDone(r: Radix2.Regs, n: nat, k: nat)
    requires !Radix2.Ticks(32, r, n).Busy() && n <= k
    ensures !Radix2.Ticks(32, r, k).Busy()
  {
    if n < k { StillDone(r, n, k - 1); }
  }

  lemma DivResult(p: Params, s: System, insn: Insn, before: Divider.Regs, k: nat, v: Word)
    requires ValidSystem(p, s) && Encodes(s.core.front.instr, insn) && insn.DivReg?
    requires WillYield(p, s, insn, before, k, v) && !s.core.back.div.Busy()
    ensures k == 32 && AluOut(s.core) == v
  {
    hide Pow2, ValidCore, Encodes, Divider.Load, Divider.Tick, Divider.Ticks, Divider.Read, MulDivSpec.DivResult,
      UnitDivOp;
    UnitSignals(s.core.front.instr, insn);
    MulCode(s.core.front.instr);
    var c := s.core;
    Divider.Correct(32, insn.divOp, c.front.rs1, c.front.rs2, before);
    DivMod(v, Pow2(32), 0, v);
  }

  // Outside S_EXECUTE neither the trap and CSR registers nor memory change.
  lemma QuietCsrs(p: Params, s: System, x: Inputs)
    requires ValidSystem(p, s) && !s.core.front.state.ExecuteInstr?
    ensures CsrsOf(NextBack(p, s.core, x)) == CsrsOf(s.core.back)
    ensures Written(p, s.core, s.mem) == s.mem
  {
    hide Pow2, ValidCore, NextRegs, NextMul, NextDiv, NextShift, PutLanes, PcNew, CsrWrite, IsSystem, IsEnvTrap,
      IsMret;
  }

  // What S_WAIT does to the front end: nothing, until it ends.
  lemma WaitFront(p: Params, s: System, x: Inputs)
    requires ValidSystem(p, s) && s.core.front.state.WaitUnit?
    ensures var c, f := s.core.front, NextFront(p, s.core, x);
      && f.pc == c.pc && f.instr == c.instr && f.rs1 == c.rs1 && f.rs2 == c.rs2
      && (if !Busy(s.core) && !x.rbusy && !x.wbusy then f.state.WaitInstr? || f.state.FetchInstr?
        else f.state.WaitUnit?)
  {
    hide ValidCore, Busy;
  }

  // One more clock of waiting brings the units one clock nearer.
  lemma StillYields(p: Params, s: System, x: Inputs, insn: Insn, before: Divider.Regs, k: nat, v: Word)
    requires ValidSystem(p, s) && s.core.front.state.WaitUnit? && Encodes(s.core.front.instr, insn)
    requires !Immediate(insn) && !insn.Illegal?
    requires WillYield(p, s, insn, before, k, v) && UnitsInv(s.core) && BusOk(p, s, x)
    requires NextFront(p, s.core, x).state.WaitUnit?
    ensures WillYield(p, NextSystem(p, s, x), insn, before, k + 1, v)
  {
    hide Pow2, ValidCore, LoadStoreAddr, LoadValue, NextFront, NextRegs, NextMstatus, NextMepc, TrapEntry, IsMret,
      Encodes, Immediate, Busy, Written, Radix2.Tick, Divider.Tick, Radix2.Load, Divider.Load, UnitsInv, IsShift,
      WillShift, BusOk, MulW, DivW, IsMul, IsDivide, UnitDivOp;
    var n := NextSystem(p, s, x);
    WaitFront(p, s, x);
    QuietCsrs(p, s, x);
    NotImmediate(insn);
    UnitSignals(s.core.front.instr, insn);
    if insn.Load? {
      FetchUnit.SameAddress(p, s.core, n.core);
    } else if insn.DivReg? {
      StillDividing(p, s, x, insn, before, k, v);
    } else if insn.ShiftImm? || insn.OpReg? {
      StillShifting(s.core, if insn.ShiftImm? then insn.shiftOp else insn.op.shift, v);
    }
  }

  lemma StillShifting(c: Core, op: Shifter.ShiftOp, v: Word)
    requires c.front.state.WaitUnit? && WillShift(c.back.shift, op, v)
    ensures WillShift(NextShift(c), op, v)
  {
    hide Pow2, Shifter.Shift, Shifter.Moved;
    if c.back.shift.count > 0 {
      Shifter.MovedThenShift(32, op, c.back.shift.data, c.back.shift.count);
    }
  }

  // The divider is the last unit to finish, so S_WAIT ends exactly when it does.
  lemma StillDividing(p: Params, s: System, x: Inputs, insn: Insn, before: Divider.Regs, k: nat, v: Word)
    requires ValidSystem(p, s) && s.core.front.state.WaitUnit? && Encodes(s.core.front.instr, insn) && insn.DivReg?
    requires WillYield(p, s, insn, before, k, v) && UnitsInv(s.core) && BusOk(p, s, x)
    requires NextFront(p, s.core, x).state.WaitUnit?
    ensures k < 32 && NextMul(s.core).Remaining() <= 32 - (k + 1) && NextShift(s.core).count <= 32 - (k + 1)
  {
    hide Pow2, ValidCore, NextFront, Encodes, Radix2.Tick, Divider.Tick, Divider.Ticks, Divider.Load, Divider.Read,
      MulDivSpec.DivResult, DivW;
    WaitFront(p, s, x);
    Divider.Correct(32, insn.divOp, s.core.front.rs1, s.core.front.rs2, before);
    MulStep(s.core);
    ClassSignals(s.core.front.instr, insn);
  }

  // Every clock of S_WAIT writes the register; the last one writes the result.
  lemma WaitRegs(p: Params, s: System, x: Inputs, insn: Insn, goal: Arch, before: Divider.Regs, k: nat, v: Word)
    requires Waiting(p, s, insn, goal, before, k, v) && BusOk(p, s, x)
    ensures var r, done := NextRegs(p, s.core, x), !Busy(s.core) && !x.rbusy;
      if insn.Store? || done then r == goal.regs else Write(r, Rd(s.core.front.instr), v) == goal.regs
  {
    hide Pow2, WillYield, WriteBackData, Busy, Encodes, Immediate, IsBranch, IsStore, Write, BusOk;
    ClassSignals(s.core.front.instr, insn);
    if !insn.Store? {
      WriteTwice(s.core.back.regs, Rd(s.core.front.instr), WriteBackData(p, s.core, x), v);
      NotImmediate(insn);
      if !Busy(s.core) && !x.rbusy { UnitResult(p, s, x, insn, before, k, v); }
    }
  }

  // One clock of S_WAIT: either it goes on, or the goal is reached.
  lemma WaitStep(p: Params, s: System, x: Inputs, insn: Insn, goal: Arch, before: Divider.Regs, k: nat, v: Word)
    requires Waiting(p, s, insn, goal, before, k, v) && BusOk(p, s, x) && UnitsInv(s.core)
    ensures var n := NextSystem(p, s, x);
      if n.core.front.state.WaitUnit? then Waiting(p, n, insn, goal, before, k + 1, v)
      else !n.core.front.state.ExecuteInstr? && ArchOf(n) == goal
  {
    hide Pow2, ValidCore, WillYield, Busy, Encodes, Immediate, Write, BusOk, UnitsInv, NextFront, NextRegs, NextMul,
      NextDiv, NextShift, NextMstatus, NextMepc, TrapEntry, IsMret, Written;
    WaitFront(p, s, x);
    QuietCsrs(p, s, x);
    WaitRegs(p, s, x, insn, goal, before, k, v);
    FetchUnit.BackRegs(p, s.core, x);
    if NextFront(p, s.core, x).state.WaitUnit? {
      if !insn.Store? { StillYields(p, s, x, insn, before, k, v); }
    }
    OnlyStoresStall(p, s, x, insn);
  }

  lemma OnlyStoresStall(p: Params, s: System, x: Inputs, insn: Insn)
    requires ValidSystem(p, s) && Encodes(s.core.front.instr, insn) && !insn.Illegal? && BusOk(p, s, x)
    ensures x.wbusy ==> insn.Store?
  {
    hide Pow2, ValidCore, Encodes, IsStore;
    ClassSignals(s.core.front.instr, insn);
  }

  // The operands of the units are those of the instruction.
  lemma Operands(p: Params, s: System, insn: Insn)
    requires Ready(p, s, insn)
    ensures insn.ShiftImm? ==> AluIn1(s.core) == Reg(ArchOf(s), insn.rs1) && ShiftAmount(s.core) == insn.amount as int
    ensures insn.OpReg? || insn.MulReg? || insn.DivReg? ==>
      && AluIn1(s.core) == Reg(ArchOf(s), insn.rs1) && AluIn2(s.core) == Reg(ArchOf(s), insn.rs2)
      && AluIn2(s.core) == s.core.front.rs2 && ShiftAmount(s.core) == s.core.front.rs2 % 32
  {
    hide Pow2, ValidCore, Rd, Rs1, Rs2, ImmI, LongAt, Funct3, Funct7;
    OpcodeBits(s.core.front.instr);
  }

  lemma StartLoad(p: Params, s: System, x: Inputs, insn: Insn)
    requires Ready(p, s, insn) && insn.Load? && Valid(ArchOf(s))
    ensures var a, n := LoadStoreAddr(p, s.core), NextSystem(p, s, x);
      && n.pending == Reading(a / 4) && n.mem == s.mem && a == EffectiveAddress(ArchOf(s), insn.rs1, insn.imm)
  {
    hide Pow2, ValidCore, Encodes, IsLoad, IsStore, LoadStoreAddr, EffectiveAddress, LongAt, FetchUnit.OperandsRead,
      NextFront, NextBack, Valid;
    ClassSignals(s.core.front.instr, insn);
    LoadAddress(p, s, insn);
  }

  lemma StartDivide(c: Core)
    requires UnitsInv(c) && c.front.state.ExecuteInstr? && IsDivide(c.front.instr)
    ensures NextMul(c).Remaining() <= 32 && NextShift(c).count <= 32
  {
    hide Pow2, NextMul, Radix2.Tick;
    MulStep(c);
    MaskStep(c);
    MulCode(c.front.instr);
  }

  // S_EXECUTE hands over to S_WAIT with the operation started.
  lemma StartYields(p: Params, s: System, x: Inputs, insn: Insn) returns (v: Word)
    requires Ready(p, s, insn) && !Immediate(insn) && !insn.Store? && s.pending.Nothing? && UnitsInv(s.core)
    requires Valid(ArchOf(s)) && AlignedAccess(ArchOf(s), insn) && Clean(ArchOf(s), insn, x)
    requires !Skips(ArchOf(s), insn, x)
    requires !WfiStall(s.core, x)
    ensures WillYield(p, NextSystem(p, s, x), insn, s.core.back.div, 0, v) && v == Result(ArchOf(s), insn)
  {
    hide Pow2, ValidCore, Encodes, Immediate, NextFront, NextRegs, NextMstatus, NextMepc, TrapEntry, IsMret, WfiStall,
      Clean, Skips, Outcome, LongAt, LoadStoreAddr, EffectiveAddress, LoadValue, Shifter.Shift, MulDivSpec.MulResult,
      MulDivSpec.DivResult, Radix2.Load, Divider.Load, Radix2.Tick, Divider.Tick, IsAluImm, IsAluReg, IsMul, IsDivide,
      IsShift, IsLoad, IsStore, UnitMulOp, UnitDivOp, UnitShiftOp, Valid, UnitsInv;
    v := Result(ArchOf(s), insn);
    ClassSignals(s.core.front.instr, insn);
    UnitSignals(s.core.front.instr, insn);
    NotImmediate(insn);
    FrontCorrect(p, s, x, insn);
    if insn.Load? {
      StartLoad(p, s, x, insn);
      FetchUnit.SameAddress(p, s.core, NextSystem(p, s, x).core);
    } else if insn.DivReg? {
      StartDivide(s.core);
      Operands(p, s, insn);
    } else {
      Operands(p, s, insn);
    }
  }
}
