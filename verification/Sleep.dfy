/** WFI: when the core sleeps, what wakes it, and where it goes on. */
module Sleep {
  import opened Arith
  import opened Isa
  import opened Machine
  import opened Core
  import opened Bus
  import opened Signals
  import opened Datapath
  import opened Execution
  import CoreRefines
  import FetchUnit

  // Any request wakes, whether or not it will be taken.
  predicate Wakes(x: Inputs) { x.irq || x.nmi || x.dbg }

  // Without a request nothing moves and the bus stays quiet.
  lemma Sleeps(p: Params, s: System, x: Inputs)
    requires Ready(p, s, Wfi) && Valid(ArchOf(s)) && !Wakes(x)
    ensures var n := NextSystem(p, s, x);
      n.core.front == s.core.front && ArchOf(n) == ArchOf(s) && n.pending == s.pending && !MemRstrb(s.core)
  {
    hide Pow2, Encodes, LongAt, FetchUnit.OperandsRead, IsSystem, NextRegs, NextMul, NextDiv, NextShift, NextMstatus,
      NextMepc, TrapEntry, IsMret, Written, ValidCore, MemWord, Valid, IsLoad, IsWfi;
    SystemSignals(s.core.front.instr, Wfi);
    ClassSignals(s.core.front.instr, Wfi);
    FetchUnit.WfiIsQuiet(p, s.core, s.mem);
    FetchUnit.NoDestination(p, s.core, x);
    FetchUnit.BackRegs(p, s.core, x);
    SleepingCsrs(p, s, x);
    assert WfiStall(s.core, x);
  }

  lemma SleepingCsrs(p: Params, s: System, x: Inputs)
    requires Ready(p, s, Wfi) && Valid(ArchOf(s)) && !Wakes(x)
    ensures CsrsOf(NextBack(p, s.core, x)) == CsrsOf(s.core.back)
  {
    hide Pow2, Encodes, LongAt, FetchUnit.OperandsRead, NextRegs, NextMul, NextDiv, NextShift, ValidCore, IsSystem,
      Valid;
    SystemSignals(s.core.front.instr, Wfi);
  }

  // With one the core goes on behind the WFI: straight there when nothing is taken, as with an
  // interrupt while mstatus.MIE is clear, and by way of the handler when something is.
  lemma WakesUp(p: Params, s: System, x: Inputs)
    requires Ready(p, s, Wfi) && Valid(ArchOf(s)) && Wakes(x)
    ensures var n, next := NextSystem(p, s, x), NextPc(s.mem, s.core.front.pc);
      && !n.core.front.state.ExecuteInstr? && !n.core.front.state.WaitUnit?
      && n.mem == s.mem && n.core.back.regs == s.core.back.regs
      && if TakesAny(ArchOf(s), x) then n.core.front.pc == p.mtvec && n.core.back.mepc == next
         else n.core.front.pc == next && CsrsOf(n.core.back) == CsrsOf(s.core.back)
  {
    hide Pow2, Encodes, LongAt, FetchUnit.OperandsRead, IsSystem, NextFront, NextBack, WfiStall, Written, ValidCore,
      Valid, Outcome, TakesIrq, TakesNmi, TakesDbg;
    SystemSignals(s.core.front.instr, Wfi);
    NotStalled(s.core, x);
    SmallOutcome(ArchOf(s), x, p.mtvec);
    FrontCorrect(p, s, x, Wfi);
    CoreRefines.DoneSimulates(p, s, x, Wfi);
  }

  lemma NotStalled(c: Core, x: Inputs)
    requires Wakes(x)
    ensures !WfiStall(c, x)
  {
  }

  lemma SmallOutcome(a: Arch, x: Inputs, mtvec: int)
    requires Valid(a)
    ensures var r := Outcome(a, Wfi, x, mtvec);
      && r.mem == a.mem && r.regs == a.regs
      && if TakesAny(a, x) then r.pc == mtvec && r.csrs.mepc == NextPc(a.mem, a.pc)
         else r.pc == NextPc(a.mem, a.pc) && r.csrs == a.csrs
  {
    hide Pow2, Sized, LongAt, TakesIrq, TakesNmi, TakesDbg;
  }
}
