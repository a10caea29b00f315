/** The trap lock over whole runs: mcause blocks nested traps, dbg_halt_mask blocks nested debug
    halts, and only an executed MRET opens either again. Bus behaviour is arbitrary here. */
module CoreTraps {
  import opened Arith
  import opened Machine
  import opened Core
  import opened Bus
  import opened FetchUnit

  // A trap other than a debug halt is accepted.
  predicate Enters(c: Core, x: Inputs) { IrqAccepted(c, x) || EnvAccepted(c) || NmiAccepted(c, x) }

  // An MRET executes, with no trap accepted on it.
  predicate Returns(c: Core, x: Inputs) { c.front.state.ExecuteInstr? && IsMret(c.front.instr) && !TrapEntry(c, x) }

  predicate LockInv(c: Core) { c.back.dbgMask ==> c.back.mcause }

  // One clock of the automaton.
  lemma LockStep(p: Params, c: Core, x: Inputs)
    requires ValidCore(p, c) && LockInv(c)
    ensures var b, n := c.back, Next(p, c, x).back;
      && LockInv(Next(p, c, x))
      && (Enters(c, x) ==> !b.mcause && n.mcause)
      && (DbgAccepted(c, x) ==> !b.dbgMask && n.dbgMask)
      && (!Enters(c, x) && !DbgAccepted(c, x) ==> n.mcause == (b.mcause && !Returns(c, x)))
      && (!DbgAccepted(c, x) ==> n.dbgMask == (b.dbgMask && !Returns(c, x)))
      && (Returns(c, x) ==> !Enters(c, x) && !DbgAccepted(c, x))
  {
    hide Pow2, ValidCore, NextFront, NextRegs, NextMul, NextDiv, NextShift, NextMstatus, NextMepc, IsSystem;
  }

  lemma {:induction false} LockHolds(p: Params, s: System, xs: Stimulus, n: nat)
    requires Reset(p, s) && ValidSystem(p, s)
    ensures LockInv(At(p, s, xs, n).core)
  {
    hide Pow2, ValidCore, Next, Written, NextPending;
    if n > 0 {
      LockHolds(p, s, xs, n - 1);
      LockStep(p, At(p, s, xs, n - 1).core, xs(n - 1));
    }
  }

  lemma CoreUnrolls(p: Params, s: System, xs: Stimulus, n: nat)
    requires ValidSystem(p, s)
    ensures At(p, s, xs, n + 1).core == Next(p, At(p, s, xs, n).core, xs(n))
  {
    hide ValidCore, Next, Written, NextPending;
  }

  // While the lock is set and no MRET executes it stays set.
  lemma {:induction false} LockStays(p: Params, s: System, xs: Stimulus, i: nat, j: nat)
    requires Reset(p, s) && ValidSystem(p, s) && i <= j
    requires forall k :: i <= k < j ==> !Returns(At(p, s, xs, k).core, xs(k))
    ensures At(p, s, xs, i).core.back.mcause ==> At(p, s, xs, j).core.back.mcause
    ensures At(p, s, xs, i).core.back.dbgMask ==> At(p, s, xs, j).core.back.dbgMask
    decreases j - i
  {
    hide At, ValidCore, Reset, Next, Returns, Enters, DbgAccepted;
    if i < j {
      LockStays(p, s, xs, i, j - 1);
      LockHolds(p, s, xs, j - 1);
      LockStep(p, At(p, s, xs, j - 1).core, xs(j - 1));
      CoreUnrolls(p, s, xs, j - 1);
    }
  }

  // Between two accepted traps, of whatever kinds but debug halts, an MRET has executed.
  lemma NoNesting(p: Params, s: System, xs: Stimulus, i: nat, j: nat)
    requires Reset(p, s) && ValidSystem(p, s) && i < j
    requires Enters(At(p, s, xs, i).core, xs(i)) && Enters(At(p, s, xs, j).core, xs(j))
    ensures exists k :: i < k < j && Returns(At(p, s, xs, k).core, xs(k))
  {
    hide At, ValidCore, Reset, Next, Returns, Enters, DbgAccepted;
    LockHolds(p, s, xs, i);
    LockStep(p, At(p, s, xs, i).core, xs(i));
    CoreUnrolls(p, s, xs, i);
    LockHolds(p, s, xs, j);
    LockStep(p, At(p, s, xs, j).core, xs(j));
    if forall k :: i + 1 <= k < j ==> !Returns(At(p, s, xs, k).core, xs(k)) {
      LockStays(p, s, xs, i + 1, j);
    }
  }

  // And likewise between two debug halts, even when one interrupts a trap handler.
  lemma NoNestedHalts(p: Params, s: System, xs: Stimulus, i: nat, j: nat)
    requires Reset(p, s) && ValidSystem(p, s) && i < j
    requires DbgAccepted(At(p, s, xs, i).core, xs(i)) && DbgAccepted(At(p, s, xs, j).core, xs(j))
    ensures exists k :: i < k < j && Returns(At(p, s, xs, k).core, xs(k))
  {
    hide At, ValidCore, Reset, Next, Returns, Enters, DbgAccepted;
    LockHolds(p, s, xs, i);
    LockStep(p, At(p, s, xs, i).core, xs(i));
    CoreUnrolls(p, s, xs, i);
    LockHolds(p, s, xs, j);
    LockStep(p, At(p, s, xs, j).core, xs(j));
    if forall k :: i + 1 <= k < j ==> !Returns(At(p, s, xs, k).core, xs(k)) {
      LockStays(p, s, xs, i + 1, j);
    }
  }

  // How often each has happened before clock n.
  function Entries(p: Params, s: System, xs: Stimulus, n: nat): nat
    requires ValidSystem(p, s)
  {
    if n == 0 then 0 else Entries(p, s, xs, n - 1) + if Enters(At(p, s, xs, n - 1).core, xs(n - 1)) then 1 else 0
  }

  function Halts(p: Params, s: System, xs: Stimulus, n: nat): nat
    requires ValidSystem(p, s)
  {
    if n == 0 then 0 else Halts(p, s, xs, n - 1) + if DbgAccepted(At(p, s, xs, n - 1).core, xs(n - 1)) then 1 else 0
  }

  function Mrets(p: Params, s: System, xs: Stimulus, n: nat): nat
    requires ValidSystem(p, s)
  {
    if n == 0 then 0 else Mrets(p, s, xs, n - 1) + if Returns(At(p, s, xs, n - 1).core, xs(n - 1)) then 1 else 0
  }

  // Each kind of entry is bounded by the MRETs executed, plus the one still being handled.
  lemma {:induction false} Bounded(p: Params, s: System, xs: Stimulus, n: nat)
    requires Reset(p, s) && ValidSystem(p, s)
    ensures var b := At(p, s, xs, n).core.back;
      && Entries(p, s, xs, n) <= Mrets(p, s, xs, n) + (if b.mcause then 1 else 0)
      && Halts(p, s, xs, n) <= Mrets(p, s, xs, n) + (if b.dbgMask then 1 else 0)
  {
    hide ValidCore, Next, Returns, Enters, DbgAccepted, Written, NextPending;
    if n > 0 {
      Bounded(p, s, xs, n - 1);
      LockHolds(p, s, xs, n - 1);
      LockStep(p, At(p, s, xs, n - 1).core, xs(n - 1));
      CoreUnrolls(p, s, xs, n - 1);
    } else {
      AtReset(p, s, xs);
    }
  }

  lemma AtReset(p: Params, s: System, xs: Stimulus)
    requires Reset(p, s) && ValidSystem(p, s)
    ensures var b := At(p, s, xs, 0).core.back; !b.mcause && !b.dbgMask
  {
  }

  /* A debug halt reads back as a breakpoint, cause 3, exactly when no NMI or interrupt is
     accepted in the same clock and it does not meet an ECALL that traps. */
  lemma DebugHaltCause(p: Params, c: Core, x: Inputs)
    requires ValidCore(p, c) && DbgAccepted(c, x)
    ensures McauseRead(Next(p, c, x)) == 3 <==>
      !NmiAccepted(c, x) && !IrqAccepted(c, x) && !(EnvAccepted(c) && IsEcall(c.front.instr))
  {
    hide Pow2, ValidCore, NextFront, NextRegs, NextMul, NextDiv, NextShift, NextMstatus, NextMepc, IsSystem,
      IsEnvTrap, IsEcall;
    Pow32();
  }

  // Where it fails: a debug halt on an ECALL outside any handler reads back as the ECALL.
  lemma DebugHaltOnEcall(p: Params, c: Core, x: Inputs)
    requires ValidCore(p, c) && c.front.state.ExecuteInstr? && c.front.instr == 0x0000_0073
    requires !c.back.mcause && !c.back.dbgMask && x == Inputs(x.rdata, false, false, false, false, true)
    ensures DbgAccepted(c, x) && McauseRead(Next(p, c, x)) == 11
  {
    hide Pow2, ValidCore, NextFront, NextRegs, NextMul, NextDiv, NextShift, NextMstatus, NextMepc;
    Pow32();
    EcallCode();
  }

  lemma EcallCode()
    ensures IsEcall(0x0000_0073) && IsEnvTrap(0x0000_0073)
  {
  }
}
