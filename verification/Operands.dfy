/** Results reach the instructions that use them: what one instruction writes into the register
    file is in the operand registers of the next one that names it. */
module Operands {
  import opened Isa
  import opened Machine
  import opened Core
  import opened Bus
  import opened Datapath
  import opened Execution
  import opened FetchUnit
  import opened CoreRefines
  import Completion
  import CoreProgress
  import Signals

  // Outside a trap of its own an instruction leaves its result where later reads find it.
  lemma ResultStays(a: Arch, insn: Insn, x: Inputs, mtvec: int, r: bv5)
    requires Valid(a)
    ensures Read(Outcome(a, insn, x, mtvec).regs, r)
         == if Destination(insn) != 0 && r == Destination(insn) then Result(a, insn) else Read(a.regs, r)
  {
    hide Read, Sized, Target, Result, Stored, CsrsAfter, Write, TakesIrq, TakesNmi, TakesDbg;
    OutcomeRegs(a, insn, x, mtvec);
    ReadWrite(a.regs, Destination(insn), Result(a, insn), r);
  }

  lemma OutcomeRegs(a: Arch, insn: Insn, x: Inputs, mtvec: int)
    requires Valid(a)
    ensures Outcome(a, insn, x, mtvec).regs == Write(a.regs, Destination(insn), Result(a, insn))
  {
    hide Read, Valid, Target, Result, Stored, CsrsAfter, TakesIrq, TakesNmi, TakesDbg;
  }

  // An operand of the instruction in S_EXECUTE is the register it names.
  lemma OperandsNamed(p: Params, s: System)
    requires ValidSystem(p, s) && FetchInv(p, s) && s.core.front.state.ExecuteInstr?
    requires !InsnAt(s.mem, s.core.front.pc).Illegal?
    ensures s.core.front.rs1 == Read(s.core.back.regs, Rs1(s.core.front.instr))
    ensures s.core.front.rs2 == Read(s.core.back.regs, Rs2(s.core.front.instr))
  {
    Fits(p);
    var insn := InsnAt(s.mem, s.core.front.pc);
    hide FetchInv, InsnAt, ValidSystem, Read, Rs1, Rs2, Signals.Encodes, LongAt;
    ExecuteIsReady(p, s);
  }

  /* k and n are two clocks in S_EXECUTE with none in between, and k retires an instruction. Each
     operand of the one at n is the result of the one at k if it names its destination, and what
     the register held at k if not. */
  lemma LastResultRead(p: Params, s: System, xs: Stimulus, first: nat, k: nat, n: nat)
    requires Reset(p, s) && ValidSystem(p, s) && FirstExecute(p, s, xs, first) && first <= k < n && OnBus(p, s, xs, n)
    requires RegularRun(p, s, xs, first, n) && Retires(At(p, s, xs, k), xs(k))
    requires At(p, s, xs, n).core.front.state.ExecuteInstr?
    requires !InsnAt(At(p, s, xs, n).mem, At(p, s, xs, n).core.front.pc).Illegal?
    requires forall j: nat {:trigger At(p, s, xs, j)} :: k + 1 <= j < n ==>
      !At(p, s, xs, j).core.front.state.ExecuteInstr?
    ensures Valid(ArchOf(At(p, s, xs, k)))
    ensures var t, f, a := At(p, s, xs, k), At(p, s, xs, n).core.front, ArchOf(At(p, s, xs, k));
      var insn := InsnAt(t.mem, t.core.front.pc);
      && f.rs1 == (if Destination(insn) != 0 && Rs1(f.instr) == Destination(insn) then Result(a, insn)
                   else Read(t.core.back.regs, Rs1(f.instr)))
      && f.rs2 == (if Destination(insn) != 0 && Rs2(f.instr) == Destination(insn) then Result(a, insn)
                   else Read(t.core.back.regs, Rs2(f.instr)))
  {
    hide Reset, ValidSystem, At, OnBus, FirstExecute, RegularRun, FetchInv, Completion.UnitsInv, Valid, Outcome,
      InsnAt, Result, Destination, Read, Rs1, Rs2, WfiStall, IsaAt, Simulates;
    var t, r := At(p, s, xs, k), At(p, s, xs, n);
    MemoryThere(p, t);
    RunFacts(p, s, xs, first, k, n);
    RunSimulates(p, s, xs, first, n);
    CoreRefinesIsa(p, s, xs, first, k);
    CoreRefinesIsa(p, s, xs, first, n);
    ArchValid(p, t);
    OperandsNamed(p, r);
    CoreProgress.IdleClocks(p, s, xs, first, k + 1, n);
    RetiredOnce(p, s, xs, first, k);
    ResultStays(ArchOf(t), InsnAt(t.mem, t.core.front.pc), xs(k), p.mtvec, Rs1(r.core.front.instr));
    ResultStays(ArchOf(t), InsnAt(t.mem, t.core.front.pc), xs(k), p.mtvec, Rs2(r.core.front.instr));
  }

  lemma MemoryThere(p: Params, s: System)
    requires ValidSystem(p, s)
    ensures |s.mem| > 0
  {
    Fits(p);
  }

  lemma RunFacts(p: Params, s: System, xs: Stimulus, first: nat, k: nat, n: nat)
    requires ValidSystem(p, s) && first <= k <= n && OnBus(p, s, xs, n) && RegularRun(p, s, xs, first, n)
    ensures OnBus(p, s, xs, k) && RegularRun(p, s, xs, first, k)
  {
    hide ValidSystem, At, BusOk, Regular, IsaAt;
  }

  lemma RetiredOnce(p: Params, s: System, xs: Stimulus, first: nat, k: nat)
    requires ValidSystem(p, s) && first <= k && Retires(At(p, s, xs, k), xs(k))
    ensures var a := IsaAt(p, s, xs, first, k);
      IsaAt(p, s, xs, first, k + 1) == Outcome(a, InsnAt(a.mem, a.pc), xs(k), p.mtvec)
  {
    hide ValidSystem, At, WfiStall, Outcome, InsnAt, Valid;
  }
}
