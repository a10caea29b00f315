/** The multi-cycle core refines the one-step ISA: in every run from reset, with any wait
    states, the architectural state found in S_EXECUTE is the one the ISA reaches. */
module CoreRefines {
  import opened Arith
  import opened Isa
  import opened Machine
  import opened Core
  import opened Bus
  import opened Signals
  import opened Datapath
  import opened Execution
  import opened Completion
  import opened FetchUnit
  import opened TrapCoincidences
  import Decompressor
  import Divider

  // The system stands for the architectural state a: in S_WAIT once the unit is done,
  // otherwise as it is.
  ghost predicate Simulates(p: Params, s: System, a: Arch)
  {
    if s.core.front.state.WaitUnit? then
      exists insn: Insn, before: Divider.Regs, k: nat, v: Word :: Waiting(p, s, insn, a, before, k, v)
    else ArchOf(s) == a
  }

  // The clock in which an instruction takes effect.
  predicate Retires(s: System, x: Inputs) { s.core.front.state.ExecuteInstr? && !WfiStall(s.core, x) }

  // A store into the last word of its own encoding writes only what is there.
  predicate LeavesOwnWord(a: Arch, insn: Insn)
    requires Valid(a)
  {
    insn.Store? && EffectiveAddress(a, insn.rs1, insn.imm) / 4 == LastWord(a.mem, a.pc) ==> Stored(a, insn) == a.mem
  }

  // An instruction the theorem speaks about: legal, its access aligned, its own encoding left
  // alone, and any trap accepted with it harmless.
  predicate Regular(p: Params, s: System, a: Arch, x: Inputs)
    requires ValidSystem(p, s) && Valid(a)
  {
    var insn := InsnAt(a.mem, a.pc);
    && !insn.Illegal? && AlignedAccess(a, insn) && LeavesOwnWord(a, insn)
    && Clean(a, insn, x) && (Skips(a, insn, x) ==> Harmless(p, s, x, insn))
  }

  lemma ExecuteIsReady(p: Params, s: System)
    requires FetchInv(p, s) && s.core.front.state.ExecuteInstr? && !InsnAt(s.mem, s.core.front.pc).Illegal?
    ensures Ready(p, s, InsnAt(s.mem, s.core.front.pc)) && s.pending.Nothing?
  {
    hide Decode32, Decode, HalfAt, Join, Decompressor.Decompress, WordAt, UnalignedLong, MemWord, LoadStoreAddr,
      LastWord, Read, Encodes, IsWfi, Rd;
    var insn := InsnAt(s.mem, s.core.front.pc);
    Decompressor.Faithful(HalfAt(s.mem, s.core.front.pc), HalfAt(s.mem, s.core.front.pc + 2));
    Inverse(s.core.front.instr);
    SystemSignals(s.core.front.instr, insn);
  }

  // S_EXECUTE.
  lemma ExecuteSimulates(p: Params, s: System, x: Inputs)
    requires ValidSystem(p, s) && FetchInv(p, s) && UnitsInv(s.core) && Retires(s, x) && Valid(ArchOf(s))
    requires Regular(p, s, ArchOf(s), x)
    ensures Simulates(p, NextSystem(p, s, x), Outcome(ArchOf(s), InsnAt(s.mem, s.core.front.pc), x, p.mtvec))
  {
    var insn := InsnAt(s.mem, s.core.front.pc);
    hide Pow2, FetchInv, UnitsInv, WfiStall, InsnAt, Ready, AlignedAccess, Clean, Skips, Harmless, LeavesOwnWord,
      Encodes, Immediate, Outcome, Valid, ValidSystem;
    ExecuteIsReady(p, s);
    if Immediate(insn) || Skips(ArchOf(s), insn, x) {
      DoneSimulates(p, s, x, insn);
    } else {
      var v := WaitBegins(p, s, x, insn);
    }
  }

  // An instruction that is over with S_EXECUTE.
  lemma DoneSimulates(p: Params, s: System, x: Inputs, insn: Insn)
    requires Ready(p, s, insn) && Valid(ArchOf(s)) && AlignedAccess(ArchOf(s), insn) && Clean(ArchOf(s), insn, x)
    requires Immediate(insn) || (Skips(ArchOf(s), insn, x) && Harmless(p, s, x, insn))
    requires !WfiStall(s.core, x)
    ensures var n := NextSystem(p, s, x);
      !n.core.front.state.WaitUnit? && ArchOf(n) == Outcome(ArchOf(s), insn, x, p.mtvec)
  {
    hide Pow2, ValidCore, NextFront, NextRegs, NextMul, NextDiv, NextShift, NextMstatus, NextMepc, TrapEntry, IsMret,
      Written, Encodes, WfiStall, Clean, Skips, Harmless, Outcome, AlignedAccess, LongAt, OperandsRead, Immediate,
      Valid;
    FrontCorrect(p, s, x, insn);
    if Immediate(insn) {
      RegsCorrect(p, s, x, insn);
    } else {
      SkippedExact(p, s, x, insn);
    }
    CsrsCorrect(p, s, x, insn);
    MemoryCorrect(p, s, insn);
    OutcomeMem(ArchOf(s), insn, x, p.mtvec);
    BackRegs(p, s.core, x);
  }

  lemma OutcomeMem(a: Arch, insn: Insn, x: Inputs, mtvec: int)
    requires Valid(a)
    ensures Outcome(a, insn, x, mtvec).mem == Stored(a, insn)
    ensures !Traps(a, insn) ==> Outcome(a, insn, x, mtvec).regs == Write(a.regs, Destination(insn), Result(a, insn))
  {
    hide Pow2, Valid, Target, Result, Destination, CsrsAfter, Write, TakesIrq, TakesNmi, TakesDbg, StoreValue,
      EffectiveAddress;
  }

  lemma WaitBegins(p: Params, s: System, x: Inputs, insn: Insn) returns (v: Word)
    requires Ready(p, s, insn) && Valid(ArchOf(s)) && !Immediate(insn) && AlignedAccess(ArchOf(s), insn)
    requires Clean(ArchOf(s), insn, x)
    requires !Skips(ArchOf(s), insn, x) && !WfiStall(s.core, x) && UnitsInv(s.core) && s.pending.Nothing?
    ensures Waiting(p, NextSystem(p, s, x), insn, Outcome(ArchOf(s), insn, x, p.mtvec), s.core.back.div, 0, v)
  {
    hide Pow2, ValidCore, NextFront, NextRegs, NextMul, NextDiv, NextShift, NextMstatus, NextMepc, TrapEntry, IsMret,
      Written, Encodes, WfiStall, Clean, Skips, Outcome, AlignedAccess, LongAt, OperandsRead, Immediate, Valid,
      WillYield, UnitsInv, Write, Stored, Destination, Result;
    v := 0;
    FrontCorrect(p, s, x, insn);
    CsrsCorrect(p, s, x, insn);
    MemoryCorrect(p, s, insn);
    OutcomeMem(ArchOf(s), insn, x, p.mtvec);
    BackRegs(p, s.core, x);
    TrapsAreImmediate(ArchOf(s), insn);
    if !insn.Store? { v := StartYields(p, s, x, insn); }
    FirstWrite(p, s, x, insn, v);
  }

  // S_EXECUTE already writes the destination once, with whatever the units hold.
  lemma FirstWrite(p: Params, s: System, x: Inputs, insn: Insn, v: Word)
    requires Ready(p, s, insn) && Valid(ArchOf(s)) && !Immediate(insn) && (insn.Store? || v == Result(ArchOf(s), insn))
    ensures var r, goal := NextRegs(p, s.core, x), Write(s.core.back.regs, Destination(insn), Result(ArchOf(s), insn));
      if insn.Store? then r == goal else Write(r, Rd(s.core.front.instr), v) == goal
  {
    hide Pow2, Encodes, OperandsRead, LongAt, Immediate, Valid, Result, Destination, IsBranch, IsStore, WriteBackData,
      Write;
    ClassSignals(s.core.front.instr, insn);
    DestinationCorrect(p, s, insn);
    BranchWritesNothing(insn);
    NotImmediate(insn);
    WriteTwice(s.core.back.regs, Rd(s.core.front.instr), WriteBackData(p, s.core, x), v);
    NoWrite(s.core.back.regs, Result(ArchOf(s), insn));
  }

  lemma NoWrite(regs: seq<Word>, x: Word)
    requires |regs| == 32
    ensures Write(regs, 0, x) == regs
  {
  }

  // A stalled WFI, and the clocks of a fetch, change nothing architectural.
  lemma QuietSimulates(p: Params, s: System, x: Inputs)
    requires FetchInv(p, s) && !Retires(s, x) && !s.core.front.state.WaitUnit? && BusOk(p, s, x)
    requires s.core.front.state.ExecuteInstr? ==> !InsnAt(s.mem, s.core.front.pc).Illegal?
    ensures var n := NextSystem(p, s, x); !n.core.front.state.WaitUnit? && ArchOf(n) == ArchOf(s)
  {
    hide Pow2, FetchInv, BusOk, NextMul, NextDiv, NextShift, Written, NextRegs, NextFront, NextMstatus, NextMepc,
      TrapEntry, IsMret, InsnAt, WfiStall, ValidCore;
    assert ValidSystem(p, s) by { SystemOf(p, s); }
    QuietFront(p, s, x);
    BackRegs(p, s.core, x);
    if s.core.front.state.ExecuteInstr? {
      StalledWfi(p, s, x);
    } else {
      QuietRegs(p, s.core, x);
      QuietCsrs(p, s, x);
    }
  }

  lemma SystemOf(p: Params, s: System)
    requires FetchInv(p, s)
    ensures ValidSystem(p, s)
  {
    hide ValidSystem;
  }

  lemma QuietFront(p: Params, s: System, x: Inputs)
    requires ValidSystem(p, s) && !Retires(s, x) && !s.core.front.state.WaitUnit?
    ensures var f := NextFront(p, s.core, x); !f.state.WaitUnit? && f.pc == s.core.front.pc
  {
    hide ValidCore, WfiStall, TrapEntry, Decompressed, DecompInput, UnalignedLong, CachedMem, CurrentHit, MemWord,
      Read;
  }

  lemma StalledWfi(p: Params, s: System, x: Inputs)
    requires FetchInv(p, s) && WfiStall(s.core, x) && ValidSystem(p, s)
    requires !InsnAt(s.mem, s.core.front.pc).Illegal?
    ensures NextRegs(p, s.core, x) == s.core.back.regs && Written(p, s.core, s.mem) == s.mem
    ensures CsrsOf(NextBack(p, s.core, x)) == CsrsOf(s.core.back)
  {
    var insn := InsnAt(s.mem, s.core.front.pc);
    hide Pow2, FetchInv, NextRegs, NextMul, NextDiv, NextShift, Written, InsnAt, ValidCore, Encodes, LongAt,
      OperandsRead, IsSystem;
    ExecuteIsReady(p, s);
    SystemSignals(s.core.front.instr, insn);
    NoDestination(p, s.core, x);
    WfiIsQuiet(p, s.core, s.mem);
  }

  // S_WAIT.
  lemma WaitSimulates(p: Params, s: System, x: Inputs, a: Arch)
    requires s.core.front.state.WaitUnit? && Simulates(p, s, a) && UnitsInv(s.core) && ValidSystem(p, s)
    requires BusOk(p, s, x)
    ensures Simulates(p, NextSystem(p, s, x), a)
  {
    hide Waiting, NextSystem, UnitsInv, BusOk, ValidSystem;
    var insn: Insn, before: Divider.Regs, k: nat, v: Word :| Waiting(p, s, insn, a, before, k, v);
    WaitStep(p, s, x, insn, a, before, k, v);
  }

  // The architectural state the ISA reaches next: an instruction is executed exactly in the
  // clocks that retire one.
  function IsaNext(p: Params, s: System, x: Inputs, a: Arch): (r: Arch)
    requires Valid(a)
  {
    if Retires(s, x) then Outcome(a, InsnAt(a.mem, a.pc), x, p.mtvec) else a
  }

  // Simulation, clock by clock.
  lemma StepSimulates(p: Params, s: System, x: Inputs, a: Arch)
    requires ValidSystem(p, s) && FetchInv(p, s) && UnitsInv(s.core) && BusOk(p, s, x) && Simulates(p, s, a) && Valid(a)
    requires s.core.front.state.ExecuteInstr? ==> Regular(p, s, a, x)
    ensures Simulates(p, NextSystem(p, s, x), IsaNext(p, s, x, a))
  {
    hide FetchInv, UnitsInv, BusOk, Waiting, WfiStall, InsnAt, Outcome, Valid, AlignedAccess, Clean, Skips, Harmless,
      LeavesOwnWord, NextSystem, ValidSystem;
    if s.core.front.state.WaitUnit? {
      WaitSimulates(p, s, x, a);
    } else if Retires(s, x) {
      ExecuteSimulates(p, s, x);
    } else {
      QuietSimulates(p, s, x);
    }
  }

  lemma ExecuteKeepsValid(a: Arch, insn: Insn, mtvec: int)
    requires Valid(a) && 0 <= mtvec < |a.mem|
    ensures Valid(Execute(a, insn, mtvec)) && |Execute(a, insn, mtvec).mem| == |a.mem|
  {
    hide Pow2, Sized, Result, Destination, Write, StoreValue, Holds, LongAt, WriteCsr, CsrsAfter;
    TargetInRange(a, insn);
  }

  lemma TargetInRange(a: Arch, insn: Insn)
    requires Valid(a)
    ensures 0 <= Target(a, insn) < |a.mem|
  {
    hide Pow2, Sized, Holds, LongAt;
    SizeFits(|a.mem|);
  }

  lemma OutcomeKeepsValid(a: Arch, insn: Insn, x: Inputs, mtvec: int)
    requires Valid(a) && 0 <= mtvec < |a.mem|
    ensures Valid(Outcome(a, insn, x, mtvec)) && |Outcome(a, insn, x, mtvec).mem| == |a.mem|
  {
    hide Pow2, Sized, Execute, TakesAny, TakesIrq, TakesNmi, TakesDbg;
    ExecuteKeepsValid(a, insn, mtvec);
  }

  /* The ISA's run beside clocks first..n of the core's: from the state found at clock first,
     one Outcome for every clock that retires an instruction. It sees only the core's
     interrupt lines and the moments at which it retires. */
  function IsaAt(p: Params, s: System, xs: Stimulus, first: nat, n: nat): (a: Arch)
    requires ValidSystem(p, s) && first <= n
    ensures Valid(a) && |a.mem| == p.size
    decreases n
  {
    if n == first then ArchValid(p, At(p, s, xs, n)); ArchOf(At(p, s, xs, n))
    else
      var a := IsaAt(p, s, xs, first, n - 1);
      OutcomeKeepsValid(a, InsnAt(a.mem, a.pc), xs(n - 1), p.mtvec);
      IsaNext(p, At(p, s, xs, n - 1), xs(n - 1), a)
  }

  lemma {:induction false} UnitsHold(p: Params, s: System, xs: Stimulus, n: nat)
    requires ValidSystem(p, s) && UnitsInv(s.core)
    ensures UnitsInv(At(p, s, xs, n).core)
  {
    hide NextSystem, UnitsInv, ValidSystem;
    if n > 0 {
      UnitsHold(p, s, xs, n - 1);
      UnitsStep(p, At(p, s, xs, n - 1), xs(n - 1));
    }
  }

  lemma ResetUnits(p: Params, s: System)
    requires Reset(p, s)
    ensures ValidSystem(p, s) && UnitsInv(s.core)
  {
    hide Pow2, ValidSystem;
  }

  // What the ISA's run meets between clocks first and n.
  ghost predicate RegularRun(p: Params, s: System, xs: Stimulus, first: nat, n: nat)
    requires ValidSystem(p, s) && first <= n
  {
    forall k: nat {:trigger At(p, s, xs, k)} :: first <= k < n && At(p, s, xs, k).core.front.state.ExecuteInstr? ==>
      Regular(p, At(p, s, xs, k), IsaAt(p, s, xs, first, k), xs(k))
  }

  // The first n clocks of a run keep to the bus protocol.
  ghost predicate OnBus(p: Params, s: System, xs: Stimulus, n: nat)
    requires ValidSystem(p, s)
  {
    forall k: nat {:trigger At(p, s, xs, k)} :: k < n ==> BusOk(p, At(p, s, xs, k), xs(k))
  }

  // Clock first is the first one in S_EXECUTE.
  ghost predicate FirstExecute(p: Params, s: System, xs: Stimulus, first: nat)
    requires ValidSystem(p, s)
  {
    && At(p, s, xs, first).core.front.state.ExecuteInstr?
    && forall k: nat {:trigger At(p, s, xs, k)} :: k < first ==> !At(p, s, xs, k).core.front.state.ExecuteInstr?
  }

  // What the ISA's run says of a store keeps the core's copy of its own encoding right.
  lemma OwnWordKept(p: Params, s: System, insn: Insn)
    requires Ready(p, s, insn) && Valid(ArchOf(s)) && AlignedAccess(ArchOf(s), insn) && LeavesOwnWord(ArchOf(s), insn)
    ensures Undisturbed(p, s)
  {
    hide Pow2, Encodes, OperandsRead, LongAt, LastWord, LoadStoreAddr, EffectiveAddress, Written, Stored, WordAt,
      Valid, AlignedAccess, IsStore;
    MemoryCorrect(p, s, insn);
    ClassSignals(s.core.front.instr, insn);
    if insn.Store? { LoadAddress(p, s, insn); }
    if Written(p, s.core, s.mem) != s.mem { StoresElsewhere(p, s); }
  }

  lemma RegularIsUndisturbed(p: Params, s: System, x: Inputs)
    requires ValidSystem(p, s) && FetchInv(p, s) && Valid(ArchOf(s))
    requires s.core.front.state.ExecuteInstr? ==> Regular(p, s, ArchOf(s), x)
    ensures Undisturbed(p, s)
  {
    Fits(p);
    var insn := InsnAt(s.mem, s.core.front.pc);
    hide Pow2, FetchInv, ValidSystem, InsnAt, Valid, AlignedAccess, LeavesOwnWord, Clean, Skips, Harmless, LastWord,
      Written, WordAt, Ready;
    if s.core.front.state.ExecuteInstr? {
      ExecuteIsReady(p, s);
      OwnWordKept(p, s, insn);
    }
  }

  // Invariants and simulation over one clock, with hypotheses about the bus and the ISA's state.
  lemma ClockSimulates(p: Params, s: System, x: Inputs, a: Arch)
    requires ValidSystem(p, s) && FetchInv(p, s) && UnitsInv(s.core) && BusOk(p, s, x) && Simulates(p, s, a) && Valid(a)
    requires s.core.front.state.ExecuteInstr? ==> Regular(p, s, a, x)
    ensures FetchInv(p, NextSystem(p, s, x)) && UnitsInv(NextSystem(p, s, x).core)
    ensures Simulates(p, NextSystem(p, s, x), IsaNext(p, s, x, a))
  {
    hide FetchInv, UnitsInv, BusOk, Waiting, WfiStall, Valid, Regular, NextSystem, ValidSystem, IsaNext, Undisturbed;
    ArchValid(p, s);
    RegularIsUndisturbed(p, s, x);
    StepKeepsInv(p, s, x);
    UnitsStep(p, s, x);
    StepSimulates(p, s, x, a);
  }

  // What the hypotheses say about clock n of a run.
  lemma RunPrefix(p: Params, s: System, xs: Stimulus, first: nat, n: nat)
    requires ValidSystem(p, s) && first <= n && OnBus(p, s, xs, n + 1) && RegularRun(p, s, xs, first, n + 1)
    ensures OnBus(p, s, xs, n) && RegularRun(p, s, xs, first, n) && BusOk(p, At(p, s, xs, n), xs(n))
    ensures At(p, s, xs, n).core.front.state.ExecuteInstr? ==>
      Regular(p, At(p, s, xs, n), IsaAt(p, s, xs, first, n), xs(n))
  {
    hide Regular, IsaAt, At, ValidSystem, BusOk;
    assert BusOk(p, At(p, s, xs, n), xs(n));
    assert At(p, s, xs, n).core.front.state.ExecuteInstr? ==>
      Regular(p, At(p, s, xs, n), IsaAt(p, s, xs, first, n), xs(n));
  }

  lemma {:induction false} RunSimulates(p: Params, s: System, xs: Stimulus, first: nat, n: nat)
    requires Reset(p, s) && ValidSystem(p, s) && FirstExecute(p, s, xs, first) && first <= n && OnBus(p, s, xs, n)
    requires RegularRun(p, s, xs, first, n)
    ensures FetchInv(p, At(p, s, xs, n)) && UnitsInv(At(p, s, xs, n).core)
    ensures Simulates(p, At(p, s, xs, n), IsaAt(p, s, xs, first, n))
    decreases n
  {
    hide NextSystem, UnitsInv, ValidSystem, Regular, Waiting, BusOk, FetchInv, IsaNext, Reset, Valid, OnBus,
      RegularRun, FirstExecute, ArchOf;
    if n == first {
      ResetUnits(p, s);
      UnitsHold(p, s, xs, n);
      ResetInv(p, s);
      NoStoreYet(p, s, xs, first);
      InvHolds(p, s, xs, n);
      assert At(p, s, xs, n).core.front.state.ExecuteInstr? by { FirstExecutes(p, s, xs, first); }
    } else {
      RunPrefix(p, s, xs, first, n - 1);
      RunSimulates(p, s, xs, first, n - 1);
      ClockSimulates(p, At(p, s, xs, n - 1), xs(n - 1), IsaAt(p, s, xs, first, n - 1));
    }
  }

  lemma FirstExecutes(p: Params, s: System, xs: Stimulus, first: nat)
    requires ValidSystem(p, s) && FirstExecute(p, s, xs, first)
    ensures At(p, s, xs, first).core.front.state.ExecuteInstr?
  {
    hide ValidSystem, At;
  }

  // Before the first S_EXECUTE nothing is stored.
  lemma NoStoreYet(p: Params, s: System, xs: Stimulus, first: nat)
    requires ValidSystem(p, s) && FirstExecute(p, s, xs, first) && OnBus(p, s, xs, first)
    ensures Admissible(p, s, xs, first)
  {
    hide BusOk, ValidSystem, At, LastWord, Written;
    forall k: nat | k < first ensures BusOk(p, At(p, s, xs, k), xs(k)) && Undisturbed(p, At(p, s, xs, k)) {
      assert !At(p, s, xs, k).core.front.state.ExecuteInstr?;
    }
  }

  // The core refines the ISA: whenever S_EXECUTE is reached, registers, PC, memory and CSRs
  // are those of the ISA's run.
  lemma CoreRefinesIsa(p: Params, s: System, xs: Stimulus, first: nat, n: nat)
    requires Reset(p, s) && ValidSystem(p, s) && FirstExecute(p, s, xs, first) && first <= n && OnBus(p, s, xs, n)
    requires RegularRun(p, s, xs, first, n) && At(p, s, xs, n).core.front.state.ExecuteInstr?
    ensures ArchOf(At(p, s, xs, n)) == IsaAt(p, s, xs, first, n)
  {
    hide Waiting, OnBus, RegularRun, FirstExecute, Reset, ValidSystem, At, IsaAt, FetchInv, UnitsInv;
    RunSimulates(p, s, xs, first, n);
  }

  // The ISA's run starts at address 0, with the memory and the CSRs of the reset state: interrupts
  // off, and no trap being handled.
  lemma {:induction false} StartsAtZero(p: Params, s: System, xs: Stimulus, n: nat)
    requires Reset(p, s) && ValidSystem(p, s)
    requires forall k: nat {:trigger At(p, s, xs, k)} :: k < n ==> !At(p, s, xs, k).core.front.state.ExecuteInstr?
    ensures var r := At(p, s, xs, n);
      && r.core.front.pc == 0 && r.mem == s.mem && CsrsOf(r.core.back) == CsrsOf(s.core.back)
      && !CsrsOf(r.core.back).mie && !CsrsOf(r.core.back).handler && !CsrsOf(r.core.back).dbgMask
  {
    hide ValidCore, NextFront, NextBack, Written;
    if n > 0 {
      StartsAtZero(p, s, xs, n - 1);
      var t := At(p, s, xs, n - 1);
      assert !t.core.front.state.ExecuteInstr?;
      QuietCsrs(p, t, xs(n - 1));
      QuietPc(p, t.core, xs(n - 1));
    }
  }

  lemma QuietPc(p: Params, c: Core, x: Inputs)
    requires ValidCore(p, c) && !c.front.state.ExecuteInstr?
    ensures NextFront(p, c, x).pc == c.front.pc
  {
    hide ValidCore, Decompressed, DecompInput, UnalignedLong, CachedMem, CurrentHit, MemWord, Read, Busy;
  }

  // Without interrupt requests every retired instruction is one Step.
  lemma PlainOutcome(p: Params, s: System, x: Inputs, a: Arch)
    requires Valid(a) && Retires(s, x) && !x.irq && !x.nmi && !x.dbg
    ensures IsaNext(p, s, x, a) == Step(a, p.mtvec)
  {
    hide Execute, InsnAt, Valid, WfiStall;
  }
}
