/** Every instruction ends: from any reachable clock S_EXECUTE is reached again, as long as the
    bus does not stall for ever. */
module CoreProgress {
  import opened Arith
  import opened Isa
  import opened Machine
  import opened Core
  import opened Bus
  import opened Completion
  import opened FetchUnit
  import opened CoreRefines
  import opened Datapath
  import opened Execution
  import opened TrapCoincidences
  import Divider
  import Radix2
  import Shifter
  import Signals

  // Clocks until the divider's mask has been shifted out.
  function Bits(m: int): nat
  {
    if m <= 0 then 0 else 1 + Bits(m / 2)
  }

  /* How far S_EXECUTE is away: work left in the units, then the fetch states, of which a
     straddling instruction goes through twice. */
  function Distance(c: Core): nat
  {
    match c.front.state
    case ExecuteInstr => 0
    case WaitInstr => if c.front.secondHalf then 1 else 3
    case FetchInstr => if c.front.secondHalf then 2 else 4
    case WaitUnit => 5 + c.back.mul.Remaining() + c.back.shift.count + Bits(c.back.div.msk)
  }

  // In S_WAIT the units only run down, and one that is busy does.
  lemma UnitsRunDown(c: Core)
    requires UnitsInv(c) && c.front.state.WaitUnit?
    ensures NextMul(c).Remaining() <= c.back.mul.Remaining() && NextShift(c).count <= c.back.shift.count
    ensures Bits(NextDiv(c).msk) <= Bits(c.back.div.msk)
    ensures Busy(c) ==>
      NextMul(c).Remaining() + NextShift(c).count + Bits(NextDiv(c).msk)
      < c.back.mul.Remaining() + c.back.shift.count + Bits(c.back.div.msk)
  {
    hide Pow2, Radix2.Tick, Divider.OrBit, Shifter.Moved;
    MulStep(c);
  }

  // Each clock without a wait state comes closer to S_EXECUTE, and a wait state loses nothing.
  lemma Progress(p: Params, s: System, x: Inputs)
    requires ValidSystem(p, s) && UnitsInv(s.core) && !s.core.front.state.ExecuteInstr?
    ensures Distance(NextSystem(p, s, x).core) <= Distance(s.core)
    ensures !x.rbusy && !x.wbusy ==> Distance(NextSystem(p, s, x).core) < Distance(s.core)
  {
    hide Pow2, ValidCore, UnitsInv, NextRegs, NextMul, NextDiv, NextShift, NextMstatus, NextMepc, TrapEntry, IsMret,
      IsEcall, IrqAccepted, NmiAccepted, DbgAccepted, EnvAccepted, Decompressed, DecompInput, UnalignedLong,
      CachedMem, Busy, Filled, Written, Read, Bits;
    FilledState(p, s.core, x);
    if s.core.front.state.WaitUnit? { UnitsRunDown(s.core); }
  }

  lemma FilledState(p: Params, c: Core, x: Inputs)
    requires ValidCore(p, c)
    ensures Filled(p, c, x).state == c.front.state && Filled(p, c, x).secondHalf == c.front.secondHalf
  {
    hide ValidCore, CurrentHit, MemWord;
  }

  // answer(k) is a clock from k on in which the bus does not stall.
  ghost predicate Answers(xs: Stimulus, answer: nat -> nat)
  {
    forall k: nat {:trigger answer(k)} :: k <= answer(k) && !xs(answer(k)).rbusy && !xs(answer(k)).wbusy
  }

  lemma {:induction false} NoLoss(p: Params, s: System, xs: Stimulus, n: nat, m: nat) returns (e: nat)
    requires Reset(p, s) && ValidSystem(p, s) && n <= m
    ensures n <= e <= m && Distance(At(p, s, xs, e).core) <= Distance(At(p, s, xs, n).core)
    ensures e == m || At(p, s, xs, e).core.front.state.ExecuteInstr?
    decreases m - n
  {
    hide Reset, ValidSystem, UnitsInv, NextSystem, Distance;
    e := n;
    if n < m && !At(p, s, xs, n).core.front.state.ExecuteInstr? {
      ResetUnits(p, s);
      UnitsHold(p, s, xs, n);
      Progress(p, At(p, s, xs, n), xs(n));
      assert At(p, s, xs, n + 1) == NextSystem(p, At(p, s, xs, n), xs(n));
      e := NoLoss(p, s, xs, n + 1, m);
    }
  }

  // From every clock of a run on, S_EXECUTE is reached.
  lemma {:induction false} ExecuteReached(p: Params, s: System, xs: Stimulus, answer: nat -> nat, n: nat)
    returns (e: nat)
    requires Reset(p, s) && ValidSystem(p, s) && Answers(xs, answer)
    ensures n <= e && At(p, s, xs, e).core.front.state.ExecuteInstr?
    decreases Distance(At(p, s, xs, n).core)
  {
    hide Reset, ValidSystem, UnitsInv, NextSystem, Distance, At;
    e := NoLoss(p, s, xs, n, answer(n));
    if !At(p, s, xs, e).core.front.state.ExecuteInstr? {
      ResetUnits(p, s);
      UnitsHold(p, s, xs, e);
      Progress(p, At(p, s, xs, e), xs(e));
      Unroll(p, s, xs, e);
      e := ExecuteReached(p, s, xs, answer, e + 1);
    }
  }

  lemma Unroll(p: Params, s: System, xs: Stimulus, n: nat)
    requires ValidSystem(p, s)
    ensures At(p, s, xs, n + 1) == NextSystem(p, At(p, s, xs, n), xs(n))
  {
  }

  /* A memory that answers at once, and no requests: the bus protocol can be kept from every
     state, so admissible runs exist. */
  function Prompt(p: Params, s: System): (x: Inputs)
    requires ValidSystem(p, s)
    ensures BusOk(p, s, x) && !x.rbusy && !x.wbusy && !x.irq && !x.nmi && !x.dbg
  {
    Fits(p);
    Inputs(WordAt(s.mem, if s.pending.Reading? then s.pending.word else 0), false, false, false, false, false)
  }

  function PromptRun(p: Params, s: System, n: nat): (r: System)
    requires ValidSystem(p, s)
    ensures ValidSystem(p, r)
  {
    if n == 0 then s else var t := PromptRun(p, s, n - 1); NextSystem(p, t, Prompt(p, t))
  }

  function PromptBus(p: Params, s: System): Stimulus
    requires ValidSystem(p, s)
  {
    (n: nat) => Prompt(p, PromptRun(p, s, n))
  }

  lemma {:induction false} PromptAt(p: Params, s: System, n: nat)
    requires ValidSystem(p, s)
    ensures At(p, s, PromptBus(p, s), n) == PromptRun(p, s, n)
  {
    hide NextSystem, ValidSystem, Prompt;
    if n > 0 { PromptAt(p, s, n - 1); }
  }

  lemma PromptOnBus(p: Params, s: System, n: nat)
    requires ValidSystem(p, s)
    ensures OnBus(p, s, PromptBus(p, s), n)
  {
    hide ValidSystem, NextSystem, BusOk, WordAt, PromptRun, At, Prompt;
    var xs := PromptBus(p, s);
    forall k: nat | k < n ensures BusOk(p, At(p, s, xs, k), xs(k)) {
      PromptAt(p, s, k);
    }
  }

  // The next S_EXECUTE from clock n on.
  lemma NextExecute(p: Params, s: System, n: nat) returns (e: nat)
    requires Reset(p, s) && ValidSystem(p, s)
    ensures n <= e && At(p, s, PromptBus(p, s), e).core.front.state.ExecuteInstr?
    ensures forall k: nat {:trigger At(p, s, PromptBus(p, s), k)} :: n <= k < e ==>
      !At(p, s, PromptBus(p, s), k).core.front.state.ExecuteInstr?
  {
    hide Reset, ValidSystem, NextSystem, PromptRun, At, Prompt;
    var xs := PromptBus(p, s);
    var end := ExecuteReached(p, s, xs, k => k, n);
    e := n;
    while !At(p, s, xs, e).core.front.state.ExecuteInstr?
      invariant n <= e <= end
      invariant forall k: nat {:trigger At(p, s, xs, k)} :: n <= k < e ==>
        !At(p, s, xs, k).core.front.state.ExecuteInstr?
      decreases end - e
    {
      e := e + 1;
    }
  }

  // From every reset state some run on that bus reaches S_EXECUTE, where the refinement starts.
  lemma RunsExist(p: Params, s: System) returns (first: nat)
    requires Reset(p, s) && ValidSystem(p, s)
    ensures OnBus(p, s, PromptBus(p, s), first) && FirstExecute(p, s, PromptBus(p, s), first)
  {
    hide Reset, ValidSystem, NextSystem, PromptRun, At, Prompt, OnBus;
    first := NextExecute(p, s, 0);
    PromptOnBus(p, s, first);
  }

  /* And goes on from there: with nothing but C.NOP in memory the hypotheses of the refinement
     hold for ever, and the core gets through as many instructions as one likes. */
  function Nops(n: nat): (m: Mem)
    ensures |m| == n
  {
    seq(n, i => if i % 2 == 0 then 1 else 0)
  }

  const NOP := OpImm(Add, 0, 0, 0)

  lemma NopAt(n: nat, a: int)
    requires n > 0 && n % 4 == 0
    ensures HalfAt(Nops(n), a) == 1
  {
    hide HalfBits;
    var e := a - a % 2;
    EvenIndex(n, a / 2);
    HalfOne();
  }

  lemma EvenIndex(n: nat, h: int)
    requires n > 0 && n % 4 == 0
    ensures Get(Nops(n), 2 * h) == 1 && Get(Nops(n), 2 * h + 1) == 0
  {
    var j, q := 2 * h % n, 2 * h / n;
    EvenRest(2 * h, q, j, n, h);
    DivMod(2 * h + 1, n, q, j + 1);
  }

  lemma EvenRest(x: int, q: int, j: int, n: int, h: int)
    requires n > 0 && n % 4 == 0 && x == q * n + j && x == 2 * h && 0 <= j < n
    ensures j % 2 == 0 && (j + 1) % 2 == 1 && j + 1 < n
  {
    var w := n / 4;
    assert q * n == 4 * (q * w);
    DivMod(j, 2, h - 2 * (q * w), 0);
    DivMod(j + 1, 2, h - 2 * (q * w), 1);
  }

  lemma HalfOne()
    ensures HalfBits(1, 0) == 1
  {
  }

  lemma DecodesNop(hi: bv16)
    ensures Decode(1, hi) == NOP && !IsLong(1)
  {
  }

  lemma NopDecoded(n: nat, a: int)
    requires n > 0 && n % 4 == 0
    ensures InsnAt(Nops(n), a) == NOP && !LongAt(Nops(n), a)
  {
    hide HalfAt, Decode, IsLong, Nops;
    NopAt(n, a);
    NopAt(n, a + 2);
    DecodesNop(HalfAt(Nops(n), a + 2));
  }

  // C.NOP is an instruction the refinement speaks about, whatever is requested with it.
  lemma NopRegular(p: Params, s: System, a: Arch, x: Inputs)
    requires ValidSystem(p, s) && Valid(a) && a.mem == Nops(|a.mem|)
    ensures InsnAt(a.mem, a.pc) == NOP && Regular(p, s, a, x)
    ensures Outcome(a, NOP, x, p.mtvec).mem == a.mem
    ensures !x.irq && !x.nmi && !x.dbg ==> Outcome(a, NOP, x, p.mtvec).pc == (a.pc + 2) % |a.mem|
  {
    hide Pow2, ValidSystem, Nops, Harmless, InsnAt, LongAt, LastWord, Result, CsrsAfter, Write;
    SizeFits(|a.mem|);
    NopDecoded(|a.mem|, a.pc);
    OutcomePc(a, NOP, x, p.mtvec);
    OutcomeMem(a, NOP, x, p.mtvec);
  }

  lemma {:induction false} NopMemory(p: Params, s: System, xs: Stimulus, first: nat, n: nat)
    requires ValidSystem(p, s) && first <= n && At(p, s, xs, first).mem == Nops(p.size)
    ensures IsaAt(p, s, xs, first, n).mem == Nops(p.size)
    decreases n
  {
    hide ValidSystem, Nops, Outcome, Regular, InsnAt, Retires, At, Valid;
    if n > first {
      NopMemory(p, s, xs, first, n - 1);
      NopRegular(p, At(p, s, xs, n - 1), IsaAt(p, s, xs, first, n - 1), xs(n - 1));
    }
  }

  lemma NopRunRegular(p: Params, s: System, xs: Stimulus, first: nat, n: nat)
    requires ValidSystem(p, s) && first <= n && At(p, s, xs, first).mem == Nops(p.size)
    ensures RegularRun(p, s, xs, first, n)
  {
    hide ValidSystem, Nops, Outcome, Regular, InsnAt, At, IsaAt, Valid;
    forall k: nat | first <= k < n
      ensures Regular(p, At(p, s, xs, k), IsaAt(p, s, xs, first, k), xs(k))
    {
      NopMemory(p, s, xs, first, k);
      NopRegular(p, At(p, s, xs, k), IsaAt(p, s, xs, first, k), xs(k));
    }
  }

  // Clocks outside S_EXECUTE leave the ISA's run where it is.
  lemma {:induction false} IdleClocks(p: Params, s: System, xs: Stimulus, first: nat, m: nat, n: nat)
    requires ValidSystem(p, s) && first <= m <= n
    requires forall k: nat {:trigger At(p, s, xs, k)} :: m <= k < n ==> !At(p, s, xs, k).core.front.state.ExecuteInstr?
    ensures IsaAt(p, s, xs, first, n) == IsaAt(p, s, xs, first, m)
    decreases n
  {
    hide ValidSystem, Outcome, InsnAt, At, Valid;
    if n > m {
      IdleClocks(p, s, xs, first, m, n - 1);
      assert !At(p, s, xs, n - 1).core.front.state.ExecuteInstr?;
    }
  }

  // A C.NOP in S_EXECUTE retires.
  lemma NopRetires(p: Params, s: System, x: Inputs)
    requires ValidSystem(p, s) && FetchInv(p, s) && s.core.front.state.ExecuteInstr? && s.mem == Nops(p.size)
    ensures Retires(s, x)
  {
    Fits(p);
    NopDecoded(p.size, s.core.front.pc);
    hide Pow2, ValidSystem, FetchInv, InsnAt, Nops, LongAt, Signals.Encodes, OperandsRead, IsWfi;
    ExecuteIsReady(p, s);
    Signals.SystemSignals(s.core.front.instr, NOP);
  }

  function Wrap(a: int, n: nat): int
    requires n > 0
  {
    a % n
  }

  lemma WrapIs(a: int, n: nat)
    requires n > 0
    ensures Wrap(a, n) == a % n
  {
  }

  lemma NextNop(pc: int, m: nat, n: nat)
    requires n > 0 && m > 0 && pc == Wrap(2 * (m - 1), n)
    ensures Wrap(pc + 2, n) == Wrap(2 * m, n)
  {
    var q := 2 * (m - 1) / n;
    assert 2 * m == pc + 2 + q * n;
    ModShift(pc + 2, q, n);
  }

  lemma SomeMemory(p: Params, s: System)
    requires ValidSystem(p, s)
    ensures p.size > 0
  {
    hide Pow2, Sized;
    Fits(p);
  }

  lemma NopAdvances(p: Params, s: System, xs: Stimulus, first: nat, k: nat, n: nat)
    requires Reset(p, s) && ValidSystem(p, s) && FirstExecute(p, s, xs, first) && first <= k < n && OnBus(p, s, xs, k)
    requires At(p, s, xs, first).mem == Nops(p.size) && At(p, s, xs, k).core.front.state.ExecuteInstr?
    requires !xs(k).irq && !xs(k).nmi && !xs(k).dbg
    requires forall j: nat {:trigger At(p, s, xs, j)} :: k + 1 <= j < n ==>
      !At(p, s, xs, j).core.front.state.ExecuteInstr?
    ensures p.size > 0 && IsaAt(p, s, xs, first, n).pc == Wrap(At(p, s, xs, k).core.front.pc + 2, p.size)
  {
    hide Reset, ValidSystem, At, OnBus, Wrap, FirstExecute, RegularRun, Nops, FetchInv, UnitsInv, Valid, Retires,
      Outcome, InsnAt;
    SomeMemory(p, s);
    NopRunRegular(p, s, xs, first, k);
    NopMemory(p, s, xs, first, k);
    RunSimulates(p, s, xs, first, k);
    var t, a := At(p, s, xs, k), IsaAt(p, s, xs, first, k);
    assert ArchOf(t) == a;
    NopRetires(p, t, xs(k));
    NopRegular(p, t, a, xs(k));
    WrapIs(t.core.front.pc + 2, p.size);
    IdleClocks(p, s, xs, first, k + 1, n);
  }

  // What a run of C.NOPs on the prompt bus has come to after m of them.
  ghost predicate NopsDone(p: Params, s: System, first: nat, n: nat, m: nat)
    requires ValidSystem(p, s)
  {
    var xs := PromptBus(p, s);
    && FirstExecute(p, s, xs, first) && first + m <= n && OnBus(p, s, xs, n) && RegularRun(p, s, xs, first, n)
    && At(p, s, xs, first).mem == s.mem && At(p, s, xs, n).core.front.state.ExecuteInstr?
    && ArchOf(At(p, s, xs, n)) == IsaAt(p, s, xs, first, n)
    && p.size > 0 && At(p, s, xs, n).core.front.pc == Wrap(2 * m, p.size)
  }

  lemma NopStart(p: Params, s: System) returns (first: nat)
    requires Reset(p, s) && ValidSystem(p, s) && s.mem == Nops(p.size)
    ensures NopsDone(p, s, first, first, 0)
  {
    hide Reset, ValidSystem, NextSystem, PromptRun, At, PromptBus, OnBus, RegularRun, Nops, FetchInv, UnitsInv, IsaAt,
      Valid;
    var xs := PromptBus(p, s);
    SomeMemory(p, s);
    first := NextExecute(p, s, 0);
    StartsAtZero(p, s, xs, first);
    PromptOnBus(p, s, first);
    NopRunRegular(p, s, xs, first, first);
    CoreRefinesIsa(p, s, xs, first, first);
    DivMod(0, p.size, 0, 0);
  }

  lemma PromptQuiet(p: Params, s: System, n: nat)
    requires ValidSystem(p, s)
    ensures var x := PromptBus(p, s)(n); !x.irq && !x.nmi && !x.dbg
  {
    hide ValidSystem, PromptRun, BusOk;
  }

  lemma ArchPc(s: System)
    ensures ArchOf(s).pc == s.core.front.pc
  {
  }

  lemma NopNext(p: Params, s: System, first: nat, k: nat, m: nat) returns (n: nat)
    requires Reset(p, s) && ValidSystem(p, s) && s.mem == Nops(p.size) && m > 0 && NopsDone(p, s, first, k, m - 1)
    ensures NopsDone(p, s, first, n, m)
  {
    hide Reset, ValidSystem, NextSystem, PromptRun, At, PromptBus, OnBus, RegularRun, Nops, FetchInv, UnitsInv, IsaAt,
      Valid, FirstExecute, ArchOf, Wrap;
    var xs := PromptBus(p, s);
    n := NextExecute(p, s, k + 1);
    PromptQuiet(p, s, k);
    NopAdvances(p, s, xs, first, k, n);
    NextNop(At(p, s, xs, k).core.front.pc, m, p.size);
    ArchPc(At(p, s, xs, n));
    PromptOnBus(p, s, n);
    NopRunRegular(p, s, xs, first, n);
    CoreRefinesIsa(p, s, xs, first, n);
  }

  lemma {:induction false} NopRun(p: Params, s: System, m: nat) returns (first: nat, n: nat)
    requires Reset(p, s) && ValidSystem(p, s) && s.mem == Nops(p.size)
    ensures NopsDone(p, s, first, n, m)
    decreases m
  {
    hide Reset, ValidSystem, NopsDone, Nops;
    if m == 0 {
      first := NopStart(p, s);
      n := first;
    } else {
      var k: nat;
      first, k := NopRun(p, s, m - 1);
      n := NopNext(p, s, first, k, m);
    }
  }
}
