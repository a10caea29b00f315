/** The core as the source writes it: registers assigned at the clock edge, with the three
    arithmetic units beside them. */
module AttoCore {
  import opened Arith
  import opened Isa
  import opened Machine
  import opened Core
  import opened Bus
  import Divider
  import FetchUnit
  import Radix2
  import Shifter

  function ResetFront(p: Params, before: Front): Front
  {
    before.(state := WaitUnit, pc := 0, cachedAddr := p.size / 4 - 1, secondHalf := false, skipFetch := false)
  }

  class AttoRV32 {
    const p: Params
    const mul: Radix2.Multiplier
    const div: Divider.Divider
    const shifter: Shifter.SerialShifter
    var front: Front
    var regs: seq<Word>
    var mstatus: bool
    var mepc: int
    var mcause: bool
    var mcauseIrq: bool
    var mcauseEcall: bool
    var mcauseNmi: bool
    var dbgHaltMask: bool

    function State(): Core
      reads this, mul, div, shifter
    {
      Core(front, Back(regs, mstatus, mepc, mcause, mcauseIrq, mcauseEcall, mcauseNmi, dbgHaltMask,
                       mul.State(), div.State(), shifter.State()))
    }

    predicate Valid()
      reads this, mul, div, shifter
    {
      ValidCore(p, State()) && mul.w == 32 && div.w == 32 && shifter.w == 32
    }

    // The reset values of the source; what it leaves unset is arbitrary: the register file, the rest
    // of the front end, mepc and the divider's mask.
    constructor (p: Params, regs: seq<Word>, before: Front, mepc: int, mask: nat)
      requires ValidParams(p) && |regs| == 32 && regs[0] == 0 && 0 <= mepc < p.size && mask < Pow2(32)
      ensures Valid() && this.p == p && fresh(mul) && fresh(div) && fresh(shifter)
      ensures State().front == ResetFront(p, before) && State().back.regs == regs && State().back.mepc == mepc
      ensures FetchUnit.ResetCore(p, State())
    {
      SizeFits(p.size);
      this.p := p;
      Pow32();
      mul := new Radix2.Multiplier(32);
      div := new Divider.Divider(32, mask);
      shifter := new Shifter.SerialShifter(32);
      front := ResetFront(p, before);
      this.regs := regs;
      this.mepc := mepc;
      mstatus, mcause, mcauseIrq, mcauseEcall, mcauseNmi, dbgHaltMask := false, false, false, false, false, false;
    }

    // The always blocks of the CSR and trap registers; s is the state before the clock edge.
    method ClockMstatus(s: Core)
      requires ValidCore(p, s) && mstatus == s.back.mstatus
      modifies this`mstatus
      ensures mstatus == NextMstatus(p, s)
    {
      hide Pow2, CsrWrite, CsrWriteEnable, ValidCore;
      if CsrWriteEnable(s) && s.front.instr >> 20 == 0x300 {
        mstatus := CsrWrite(p, s) / 8 % 2 == 1;
      }
    }

    method ClockMepc(s: Core, x: Inputs)
      requires ValidCore(p, s) && mepc == s.back.mepc
      modifies this`mepc
      ensures mepc == NextMepc(p, s, x)
    {
      hide Pow2, CsrWrite, PcNew, TrapEntry, IrqAccepted, NmiAccepted, DbgAccepted, CsrWriteEnable;
      if TrapEntry(s, x) {
        mepc := if IrqAccepted(s, x) || NmiAccepted(s, x) || DbgAccepted(s, x) then PcNew(p, s) else s.front.pc;
      } else if CsrWriteEnable(s) && s.front.instr >> 20 == 0x341 {
        mepc := CsrWrite(p, s) % p.size;
      }
    }

    method ClockMcause(s: Core, x: Inputs)
      requires ValidCore(p, s)
      requires mcause == s.back.mcause && mcauseIrq == s.back.mcauseIrq && mcauseEcall == s.back.mcauseEcall
      requires mcauseNmi == s.back.mcauseNmi
      modifies this`mcause, this`mcauseIrq, this`mcauseEcall, this`mcauseNmi
      ensures var n := NextBack(p, s, x);
        mcause == n.mcause && mcauseIrq == n.mcauseIrq && mcauseEcall == n.mcauseEcall && mcauseNmi == n.mcauseNmi
    {
      hide Pow2, NextRegs, NextMul, NextDiv, NextShift, NextMstatus, NextMepc, TrapEntry, IrqAccepted, NmiAccepted,
        DbgAccepted, EnvAccepted, IsEcall, IsMret, ValidCore;
      if TrapEntry(s, x) {
        mcause := true;
        mcauseIrq := IrqAccepted(s, x);
        mcauseEcall := EnvAccepted(s) && IsEcall(s.front.instr);
        mcauseNmi := NmiAccepted(s, x);
      } else if IsMret(s.front.instr) && s.front.state.ExecuteInstr? {
        mcause := false;
      }
    }

    method ClockMask(s: Core, x: Inputs)
      requires ValidCore(p, s) && dbgHaltMask == s.back.dbgMask
      modifies this`dbgHaltMask
      ensures dbgHaltMask == NextBack(p, s, x).dbgMask
    {
      hide Pow2, NextRegs, NextMul, NextDiv, NextShift, NextMstatus, NextMepc, TrapEntry, DbgAccepted, IsMret,
        ValidCore;
      if DbgAccepted(s, x) {
        dbgHaltMask := true;
      } else if IsMret(s.front.instr) && s.front.state.ExecuteInstr? {
        dbgHaltMask := false;
      }
    }

    method ClockCsrs(s: Core, x: Inputs)
      requires ValidCore(p, s)
      requires mstatus == s.back.mstatus && mepc == s.back.mepc && mcause == s.back.mcause
      requires mcauseIrq == s.back.mcauseIrq
      requires mcauseEcall == s.back.mcauseEcall && mcauseNmi == s.back.mcauseNmi && dbgHaltMask == s.back.dbgMask
      modifies this`mstatus, this`mepc, this`mcause, this`mcauseIrq, this`mcauseEcall, this`mcauseNmi, this`dbgHaltMask
      ensures var n := NextBack(p, s, x);
        && mstatus == n.mstatus && mepc == n.mepc && mcause == n.mcause && mcauseIrq == n.mcauseIrq
        && mcauseEcall == n.mcauseEcall && mcauseNmi == n.mcauseNmi && dbgHaltMask == n.dbgMask
    {
      hide *;
      BackFields(p, s, x);
      ClockMstatus(s);
      ClockMepc(s, x);
      ClockMcause(s, x);
      ClockMask(s, x);
    }

    // The register file's write port.
    method ClockRegs(s: Core, x: Inputs)
      requires ValidCore(p, s) && regs == s.back.regs
      modifies this`regs
      ensures regs == NextRegs(p, s, x)
    {
      hide Pow2, WriteBack, WriteBackData, Rd;
      if WriteBack(s) {
        regs := Write(regs, Rd(s.front.instr), WriteBackData(p, s, x));
      }
    }

    // The fetch state machine.
    method ClockFront(s: Core, x: Inputs)
      requires ValidCore(p, s) && front == s.front
      modifies this`front
      ensures front == NextFront(p, s, x)
    {
      hide WfiStall, TrapEntry, IrqAccepted, PcNew, NextHit, UnalignedLong, CachedMem, Decompressed, DecompInput,
        Busy, CurrentHit, MemWord, NeedToWait, Read, Rs1, Rs2;
      match front.state {
        case WaitInstr =>
          if !x.rbusy {
            ClockFetch(s, x);
          }
        case ExecuteInstr =>
          if WfiStall(s, x) {
          } else if TrapEntry(s, x) {
            front := front.(pc := p.mtvec, skipFetch := false,
                            state := if NeedToWait(front.instr) && IrqAccepted(s, x) then WaitUnit else FetchInstr);
          } else {
            var hit, unaligned := NextHit(p, s), UnalignedLong(front.cachedData, PcNew(p, s));
            var wait := NeedToWait(front.instr);
            front := front.(pc := PcNew(p, s), skipFetch := hit && !unaligned, secondHalf := hit && unaligned,
                            state := if wait then WaitUnit else if hit && !unaligned then WaitInstr else FetchInstr);
          }
        case WaitUnit =>
          if !Busy(s) && !x.rbusy && !x.wbusy {
            front := front.(state := if front.skipFetch then WaitInstr else FetchInstr);
          }
        case FetchInstr =>
          front := front.(state := WaitInstr);
      }
    }

    // S_WAIT_INSTR, when the word has arrived.
    method ClockFetch(s: Core, x: Inputs)
      requires ValidCore(p, s) && front == s.front
      modifies this`front
      ensures front == AfterWaitInstr(p, s, x)
    {
      hide UnalignedLong, CachedMem, Decompressed, DecompInput, CurrentHit, MemWord, Read, Rs1, Rs2;
      var d := Decompressed(s, x);
      if !CurrentHit(s) || s.front.secondHalf {
        front := front.(cachedAddr := MemWord(p, s), cachedData := x.rdata);
      }
      front := front.(instr := d, longInstr := DecompInput(s, x) & 3 == 3,
                      rs1 := Read(s.back.regs, Rs1(d)), rs2 := Read(s.back.regs, Rs2(d)));
      if UnalignedLong(CachedMem(s, x), s.front.pc) && !s.front.secondHalf {
        front := front.(secondHalf := true, state := FetchInstr);
      } else {
        front := front.(secondHalf := false, state := ExecuteInstr);
      }
    }

    method ClockUnits(s: Core)
      requires ValidCore(p, s) && mul.w == 32 && div.w == 32 && shifter.w == 32
      requires mul.State() == s.back.mul && div.State() == s.back.div && shifter.State() == s.back.shift
      modifies mul, div, shifter
      ensures mul.State() == NextMul(s) && div.State() == NextDiv(s) && shifter.State() == NextShift(s)
    {
      hide Pow2, ValidCore, IsMul, IsDivide, IsShift, UnitMulOp, UnitDivOp, UnitShiftOp, Radix2.Load, Radix2.Tick,
        Divider.Load, Divider.Tick, Shifter.Load, Shifter.Tick, AluWr, AluIn1, AluIn2, ShiftAmount;
      var i := s.front.instr;
      mul.Clock(AluWr(s) && IsMul(i), UnitMulOp(i), AluIn1(s), AluIn2(s));
      div.Clock(AluWr(s) && IsDivide(i), UnitDivOp(i), AluIn1(s), AluIn2(s));
      shifter.Clock(AluWr(s) && IsShift(i), UnitShiftOp(i), AluIn1(s), ShiftAmount(s));
    }

    // One clock of everything: every block sees the state before the edge.
    method Clock(x: Inputs)
      requires Valid()
      modifies this, mul, div, shifter
      ensures Valid() && State() == Next(p, old(State()), x)
    {
      hide Pow2, ValidCore, ValidFront, NextFront, NextBack, NextRegs, NextMul, NextDiv, NextShift, NextMstatus,
        NextMepc;
      var s := State();
      ClockCsrs(s, x);
      ClockRegs(s, x);
      ClockFront(s, x);
      ClockUnits(s);
      assert State() == Next(p, s, x) by {
        BackFields(p, s, x);
      }
    }
  }

  lemma BackFields(p: Params, c: Core, x: Inputs)
    requires ValidCore(p, c)
    ensures var n := NextBack(p, c, x);
      && n.regs == NextRegs(p, c, x) && n.mstatus == NextMstatus(p, c) && n.mepc == NextMepc(p, c, x)
      && n.mul == NextMul(c) && n.div == NextDiv(c) && n.shift == NextShift(c)
  {
    hide Pow2, ValidCore, NextRegs, NextMul, NextDiv, NextShift, NextMstatus, NextMepc, TrapEntry, IsMret;
  }
}
