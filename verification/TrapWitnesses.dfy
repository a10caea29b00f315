/** States in which an asynchronous trap spoils the instruction it is accepted with. */
module TrapWitnesses {
  import opened Arith
  import opened Isa
  import opened Machine
  import opened Core
  import opened Bus
  import opened Datapath
  import opened Execution
  import opened TrapCoincidences
  import Divider
  import FetchUnit
  import Radix2
  import Shifter
  import Signals

  // A core of 256 bytes that is about to execute the long instruction at address 0, with an NMI
  // request and zeros on the bus.
  function Small(): (p: Params)
    ensures ValidParams(p) && p.size == 256
  {
    assert Pow2(8) == 256;
    Params(256, 64)
  }

  function Image(code: Lanes): Mem
  {
    [code.b0, code.b1, code.b2, code.b3] + seq(252, i => 0)
  }

  function About(code: Lanes, instr: bv32): (s: System)
    ensures ValidSystem(Small(), s)
  {
    Pow32();
    System(Core(Front(ExecuteInstr, 0, instr, true, false, false, 0, code, 0, 0),
                Back(seq(32, i => 0), false, 0, false, false, false, false, false,
                     Radix2.Regs(0, 0, 0, false, false), Divider.Regs(0, 0, 0, 0, 0),
                       Shifter.Regs(0, 0, false, false))),
           Image(code), Nothing)
  }

  const NMI := Inputs(Lanes(0, 0, 0, 0), false, false, false, true, false)

  // The instruction register, length flag, cache and operands are those a fetch leaves.
  lemma AboutFetched(code: Lanes, instr: bv32)
    requires IsLong(LoHalf(code)) && Join(LoHalf(code), HiHalf(code)) == instr
    ensures FetchUnit.FetchInv(Small(), About(code, instr))
    ensures LongAt(Image(code), 0)
  {
    hide Pow2, IsLong, Join, HalfBits, LoHalf, HiHalf, HalfAt, Rs1, Rs2, Rd;
    var m := Image(code);
    assert WordAt(m, 0) == code;
    FetchUnit.HalvesAt(m, 0);
    FetchUnit.LongUnchanged(LoHalf(code), HiHalf(code));
    Zeros(Rs1(instr));
    Zeros(Rs2(instr));
  }

  lemma Zeros(r: bv5)
    ensures Read(seq(32, i => 0), r) == 0
  {
    hide Pow2;
  }

  const CALL := Lanes(0x73, 0, 0, 0)
  const LOAD := Lanes(0x83, 0x20, 0, 0)
  const LW_X1 := Load(Full, false, 1, 0, 0)

  lemma CallCode()
    ensures IsLong(LoHalf(CALL)) && Join(LoHalf(CALL), HiHalf(CALL)) == 0x73
  {
  }

  lemma LoadCode()
    ensures IsLong(LoHalf(LOAD)) && Join(LoHalf(LOAD), HiHalf(LOAD)) == 0x2083
    ensures Signals.Encodes(0x2083, LW_X1)
  {
  }

  // An ECALL whose own trap an NMI takes away: the handler returns behind it.
  lemma CallLost()
    ensures var p, s := Small(), About(CALL, 0x73);
      && FetchUnit.FetchInv(p, s) && Ready(p, s, Ecall) && Valid(ArchOf(s)) && Traps(ArchOf(s), Ecall)
        && TakesAny(ArchOf(s), NMI)
      && NextBack(p, s.core, NMI).mepc == 4 && Execute(ArchOf(s), Ecall, p.mtvec).csrs.mepc == 0
  {
    var p, s := Small(), About(CALL, 0x73);
    hide *;
    CallCode();
    AboutFetched(CALL, 0x73);
    CallReady();
    AsyncOnEnvTrap(p, s, NMI, Ecall);
    CallFields();
  }

  lemma CallReady()
    requires FetchUnit.FetchInv(Small(), About(CALL, 0x73)) && LongAt(Image(CALL), 0)
    ensures var s := About(CALL, 0x73);
      Ready(Small(), s, Ecall) && Valid(ArchOf(s)) && Traps(ArchOf(s), Ecall) && TakesAny(ArchOf(s), NMI)
  {
    hide Pow2, FetchUnit.FetchInv, HalfAt, HalfBits, Image;
    Zeros(Rs1(0x73));
    Zeros(Rs2(0x73));
  }

  lemma CallFields()
    requires LongAt(Image(CALL), 0)
    ensures var s := About(CALL, 0x73);
      Valid(ArchOf(s)) ==>
      NextPc(s.mem, s.core.front.pc) == 4 && Execute(ArchOf(s), Ecall, Small().mtvec).csrs.mepc == 0
  {
    hide Pow2, HalfAt, Target, Result, Stored, CsrsAfter, Destination;
  }

  // A load of the word at address 0 that an NMI cuts short while the bus still shows zeros.
  lemma LoadLost()
    ensures var p, s := Small(), About(LOAD, 0x2083);
      && FetchUnit.FetchInv(p, s) && Ready(p, s, LW_X1) && Valid(ArchOf(s)) && AlignedAccess(ArchOf(s), LW_X1)
      && Skips(ArchOf(s), LW_X1, NMI) && !Harmless(p, s, NMI, LW_X1)
      && NextRegs(p, s.core, NMI) != Outcome(ArchOf(s), LW_X1, NMI, p.mtvec).regs
  {
    var p, s := Small(), About(LOAD, 0x2083);
    hide *;
    LoadCode();
    AboutFetched(LOAD, 0x2083);
    LoadReady();
    LoadHarms();
    SkippedExact(p, s, NMI, LW_X1);
  }

  lemma LoadReady()
    requires FetchUnit.FetchInv(Small(), About(LOAD, 0x2083)) && LongAt(Image(LOAD), 0)
    requires Signals.Encodes(0x2083, LW_X1)
    ensures var s := About(LOAD, 0x2083);
      && Ready(Small(), s, LW_X1) && Valid(ArchOf(s)) && AlignedAccess(ArchOf(s), LW_X1) && Skips(ArchOf(s), LW_X1, NMI)
  {
    hide Pow2, FetchUnit.FetchInv, HalfAt, HalfBits, Image, Signals.Encodes;
    Zeros(Rs1(0x2083));
    Zeros(Rs2(0x2083));
  }

  lemma LoadHarms()
    ensures !Harmless(Small(), About(LOAD, 0x2083), NMI, LW_X1)
  {
    hide Pow2;
    var c := About(LOAD, 0x2083).core;
    assert LoadStoreAddr(Small(), c) == 0;
    assert WordAt(Image(LOAD), 0) == LOAD;
  }
}
