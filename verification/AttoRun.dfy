/** The clocked core on its bus, from power-on: the class runs as the value model does, so what is
    proved of runs holds of it. */
module AttoRun {
  import opened Machine
  import opened Core
  import opened Bus
  import opened Datapath
  import opened FetchUnit
  import opened CoreRefines
  import opened AttoCore
  import Arith
  import Completion

  // n clocks of the core, the memory and the bus.
  method Run(core: AttoRV32, ram: Mem, xs: Stimulus, n: nat) returns (mem: Mem, pending: Pending)
    requires core.Valid() && |ram| == core.p.size
    modifies core, core.mul, core.div, core.shifter
    ensures core.Valid()
    ensures var s := System(old(core.State()), ram, Nothing);
      ValidSystem(core.p, s) && System(core.State(), mem, pending) == At(core.p, s, xs, n)
  {
    var s := System(core.State(), ram, Nothing);
    mem, pending := ram, Nothing;
    var k := 0;
    while k < n
      invariant 0 <= k <= n && core.Valid() && ValidSystem(core.p, s)
      invariant System(core.State(), mem, pending) == At(core.p, s, xs, k)
    {
      hide NextPending, Written, Next, AttoRV32.State;
      var c, t := core.State(), System(core.State(), mem, pending);
      core.Clock(xs(k));
      mem, pending := Written(core.p, c, mem), NextPending(core.p, t, xs(k), core.State());
      k := k + 1;
    }
  }

  /* From power-on: the fetch and unit invariants hold after every number of clocks, and whenever
     the core is in S_EXECUTE it holds the ISA's state. start is the state reset leaves. */
  method PowerOn(p: Params, regs: seq<Word>, before: Front, mepc: int, mask: nat, ram: Mem, xs: Stimulus, n: nat)
    returns (core: AttoRV32, mem: Mem, pending: Pending, ghost start: System)
    requires ValidParams(p) && |regs| == 32 && regs[0] == 0 && 0 <= mepc < p.size && mask < Arith.Pow2(32)
    requires |ram| == p.size
    ensures core.Valid() && core.p == p && Reset(p, start) && start.mem == ram && start.core.back.regs == regs
    ensures System(core.State(), mem, pending) == At(p, start, xs, n)
    ensures Completion.UnitsInv(core.State())
    ensures Admissible(p, start, xs, n) ==> FetchInv(p, System(core.State(), mem, pending))
    ensures forall first: nat {:trigger FirstExecute(p, start, xs, first)} ::
      first <= n && FirstExecute(p, start, xs, first) && OnBus(p, start, xs, n) && RegularRun(p, start, xs, first, n)
      && core.State().front.state.ExecuteInstr? ==>
      ArchOf(System(core.State(), mem, pending)) == IsaAt(p, start, xs, first, n)
  {
    core := new AttoRV32(p, regs, before, mepc, mask);
    start := System(core.State(), ram, Nothing);
    assert Reset(p, start);
    mem, pending := Run(core, ram, xs, n);
    Holds(p, start, xs, n);
  }

  // What is proved of every run from reset.
  lemma Holds(p: Params, s: System, xs: Stimulus, n: nat)
    requires Reset(p, s) && ValidSystem(p, s)
    ensures Completion.UnitsInv(At(p, s, xs, n).core)
    ensures Admissible(p, s, xs, n) ==> FetchInv(p, At(p, s, xs, n))
    ensures forall first: nat {:trigger FirstExecute(p, s, xs, first)} ::
      first <= n && FirstExecute(p, s, xs, first) && OnBus(p, s, xs, n) && RegularRun(p, s, xs, first, n)
      && At(p, s, xs, n).core.front.state.ExecuteInstr? ==>
      ArchOf(At(p, s, xs, n)) == IsaAt(p, s, xs, first, n)
  {
    hide Reset, ValidSystem, Completion.UnitsInv, Admissible, FetchInv, FirstExecute, OnBus, RegularRun, At, IsaAt,
      ArchOf;
    ResetUnits(p, s);
    UnitsHold(p, s, xs, n);
    ResetInv(p, s);
    if Admissible(p, s, xs, n) { InvHolds(p, s, xs, n); }
    forall first: nat | first <= n && FirstExecute(p, s, xs, first) && OnBus(p, s, xs, n)
      && RegularRun(p, s, xs, first, n)
                        && At(p, s, xs, n).core.front.state.ExecuteInstr?
      ensures ArchOf(At(p, s, xs, n)) == IsaAt(p, s, xs, first, n)
    {
      CoreRefinesIsa(p, s, xs, first, n);
    }
  }
}
