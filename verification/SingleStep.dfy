/** Single-stepping by patching is invisible: plant traps at the successors, let the core run one
    instruction and trap, take the traps out, and what is left is one step of the program. */
module SingleStep {
  import opened Arith
  import opened Isa
  import opened Machine
  import opened Overlay
  import opened Breakpoints
  import opened PatchRuns
  import opened NextPcs
  import CoreRefines
  import Signals

  // The i-th address after x.
  function Wrapped(n: nat, x: int, i: int): (b: int)
    requires n > 0
    ensures 0 <= b < n
  {
    (x + i) % n
  }

  // No patched byte among the len bytes from address x on.
  predicate Untouched(n: nat, slots: seq<Slot>, x: int, len: nat)
    requires n > 0
  {
    forall i :: 0 <= i < len ==> Overlay.Bare(n, slots, Wrapped(n, x, i))
  }

  function Bytes(width: Width): nat { match width case Byte => 1 case Half => 2 case Full => 4 }

  // The instruction at the PC and the data it loads or stores keep clear of the patches.
  predicate Misses(a: Arch, slots: seq<Slot>)
    requires Valid(a)
  {
    SizeFits(|a.mem|);
    var insn := InsnAt(a.mem, a.pc);
    && Untouched(|a.mem|, slots, a.pc, if LongAt(a.mem, a.pc) then 4 else 2)
    && (insn.Load? || insn.Store? ==> Untouched(|a.mem|, slots, EffectiveAddress(a, insn.rs1, insn.imm),
      Bytes(insn.width)))
  }

  lemma SameByte(m: Mem, base: Mem, slots: seq<Slot>, x: int, len: nat, i: nat)
    requires Overlaid(m, base, slots) && Untouched(|m|, slots, x, len) && i < len
    ensures Get(m, x + i) == Get(base, x + i)
  {
    hide Overlaid, Overlay.Bare;
    OverlaidApart(m, base, slots);
    BareByte(m, base, slots, Wrapped(|m|, x, i));
  }

  // The same instruction is fetched.
  lemma SameFetch(m: Mem, base: Mem, slots: seq<Slot>, pc: int)
    requires Overlaid(m, base, slots) && pc % 2 == 0
    requires |base| > 0 && Untouched(|m|, slots, pc, if LongAt(base, pc) then 4 else 2)
    ensures InsnAt(m, pc) == InsnAt(base, pc) && LongAt(m, pc) == LongAt(base, pc)
  {
    hide Overlaid, Untouched, HalfBits, Get, DecodeC, Decode32, Join;
    OverlaidApart(m, base, slots);
    var len := if LongAt(base, pc) then 4 else 2;
    SameByte(m, base, slots, pc, len, 0);
    SameByte(m, base, slots, pc, len, 1);
    if len == 4 {
      SameByte(m, base, slots, pc, len, 2);
      SameByte(m, base, slots, pc, len, 3);
    }
  }

  lemma SameLoad(m: Mem, base: Mem, slots: seq<Slot>, width: Width, unsigned: bool, x: int)
    requires Overlaid(m, base, slots) && Untouched(|m|, slots, x, Bytes(width))
    ensures |m| == |base| > 0 && LoadValue(m, width, unsigned, x) == LoadValue(base, width, unsigned, x)
  {
    hide Overlaid, Untouched, Get, HalfValue, WordValue, ExtendValue;
    OverlaidApart(m, base, slots);
    SameByte(m, base, slots, x, Bytes(width), 0);
    if !width.Byte? { SameByte(m, base, slots, x, Bytes(width), 1); }
    if width.Full? {
      SameByte(m, base, slots, x, 4, 2);
      SameByte(m, base, slots, x, 4, 3);
    }
  }

  lemma PutKeeps(m: Mem, base: Mem, slots: seq<Slot>, x: int, len: nat, i: nat, v: bv8)
    requires Overlaid(m, base, slots) && Untouched(|m|, slots, x, len) && i < len
    ensures |m| == |base| > 0 && Overlaid(Put(m, x + i, v), Put(base, x + i, v), slots)
  {
    hide Overlaid, Overlay.Bare;
    OverlaidApart(m, base, slots);
    WriteKeeps(m, base, slots, Wrapped(|m|, x, i), v);
  }

  // A store beside the patches goes to the patched memory and to the program alike.
  lemma StoreKeeps(m: Mem, base: Mem, slots: seq<Slot>, width: Width, x: int, v: Word)
    requires Overlaid(m, base, slots) && Untouched(|m|, slots, x, Bytes(width))
    ensures |m| == |base| > 0 && Overlaid(StoreValue(m, width, x, v), StoreValue(base, width, x, v), slots)
  {
    hide Overlaid, Untouched, ByteOf, Put, Pow2;
    OverlaidApart(m, base, slots);
    var len := Bytes(width);
    PutKeeps(m, base, slots, x, len, 0, ByteOf(v, 0));
    var m1, b1 := Put(m, x, ByteOf(v, 0)), Put(base, x, ByteOf(v, 0));
    if !width.Byte? {
      PutKeeps(m1, b1, slots, x, len, 1, ByteOf(v, 1));
      var m2, b2 := Put(m1, x + 1, ByteOf(v, 1)), Put(b1, x + 1, ByteOf(v, 1));
      if width.Full? {
        PutKeeps(m2, b2, slots, x, len, 2, ByteOf(v, 2));
        PutKeeps(Put(m2, x + 2, ByteOf(v, 2)), Put(b2, x + 2, ByteOf(v, 2)), slots, x, len, 3, ByteOf(v, 3));
      }
    }
  }

  // One instruction beside the patches does what it does without them.
  lemma StepUnderPatches(a: Arch, m: Mem, slots: seq<Slot>, mtvec: int)
    requires Valid(a) && a.pc % 2 == 0 && Overlaid(m, a.mem, slots) && Misses(a, slots)
    ensures |m| == |a.mem| && Valid(a.(mem := m))
    ensures var r, s := Step(a.(mem := m), mtvec), Step(a, mtvec);
      r.pc == s.pc && r.regs == s.regs && r.csrs == s.csrs && Overlaid(r.mem, s.mem, slots)
  {
    var insn := InsnAt(a.mem, a.pc);
    hide Overlaid, Pow2, Sized, Untouched, InsnAt, LongAt, EffectiveAddress, LoadValue, StoreValue, Alu, ShiftW, MulW,
      DivW, Holds, ReadCsr, WriteCsr, CsrValue, SourceValue, Write, Target, CsrsAfter, Destination, ToWord, NextPc,
      Result, Stored;
    OverlaidApart(m, a.mem, slots);
    SameFetch(m, a.mem, slots, a.pc);
    SameElse(a, m, insn);
    MemoryElse(a, m, slots, insn);
  }

  // Loaded data and stores.
  lemma MemoryElse(a: Arch, m: Mem, slots: seq<Slot>, insn: Insn)
    requires Valid(a) && Overlaid(m, a.mem, slots) && insn == InsnAt(a.mem, a.pc) && Misses(a, slots)
    ensures |m| == |a.mem| && Valid(a.(mem := m))
    ensures insn.Load? ==> Result(a.(mem := m), insn) == Result(a, insn)
    ensures Overlaid(Stored(a.(mem := m), insn), Stored(a, insn), slots)
  {
    hide Overlaid, Pow2, Sized, Untouched, InsnAt, LongAt, EffectiveAddress, LoadValue, StoreValue, Alu, ShiftW, MulW,
      DivW, ReadCsr;
    OverlaidApart(m, a.mem, slots);
    if insn.Load? || insn.Store? {
      SameAccess(a, m, insn);
    }
    if insn.Load? {
      SameLoad(m, a.mem, slots, insn.width, insn.unsigned, EffectiveAddress(a, insn.rs1, insn.imm));
    } else if insn.Store? {
      StoreKeeps(m, a.mem, slots, insn.width, EffectiveAddress(a, insn.rs1, insn.imm), Reg(a, insn.rs2));
    }
  }

  lemma SameAccess(a: Arch, m: Mem, insn: Insn)
    requires Valid(a) && |m| == |a.mem| && (insn.Load? || insn.Store?)
    ensures Valid(a.(mem := m))
    ensures EffectiveAddress(a.(mem := m), insn.rs1, insn.imm) == EffectiveAddress(a, insn.rs1, insn.imm)
  {
    hide Sized;
  }

  // Nothing but the fetched instruction and loaded data depends on memory.
  lemma SameElse(a: Arch, m: Mem, insn: Insn)
    requires Valid(a) && |m| == |a.mem| && LongAt(m, a.pc) == LongAt(a.mem, a.pc)
    ensures var b := a.(mem := m);
      && Valid(b) && Target(b, insn) == Target(a, insn) && CsrsAfter(b, insn) == CsrsAfter(a, insn)
      && (!insn.Load? ==> Result(b, insn) == Result(a, insn))
  {
    hide Sized, Pow2, LongAt, Alu, ShiftW, MulW, DivW, Holds, CsrValue, LoadValue, ToWord;
  }

  predicate IsEven(x: int) { x % 2 == 0 }

  // Targets of jumps and branches are even.
  lemma EvenHalf(v: bv32)
    requires v & 1 == 0
    ensures v == (v >> 1) << 1 && v >> 1 < 0x8000_0000
  {
  }

  lemma DoubledWord(h: bv32)
    requires h < 0x8000_0000
    ensures ToWord(h << 1) == 2 * ToWord(h)
  {
    Pow32();
    DoubledInt(h);
  }

  lemma DoubledInt(h: bv32)
    requires h < 0x8000_0000
    ensures (h << 1) as int == 2 * (h as int)
  {
  }

  lemma EvenWord(v: bv32)
    requires v & 1 == 0
    ensures ToWord(v) % 2 == 0
  {
    hide ToWord, Pow2;
    EvenHalf(v);
    DoubledWord(v >> 1);
  }

  lemma OffsetsEven(i: bv32, c: bv16)
    ensures ImmJ(i) & 1 == 0 && ImmB(i) & 1 == 0 && CImmJ(c) & 1 == 0 && CImmB(c) & 1 == 0
  {
    JumpOffsetEven(i);
    BranchOffsetEven(i);
    ShortJumpOffsetEven(c);
    ShortBranchOffsetEven(c);
  }

  lemma JumpOffsetEven(i: bv32) ensures ImmJ(i) & 1 == 0 { }
  lemma BranchOffsetEven(i: bv32) ensures ImmB(i) & 1 == 0 { }
  lemma ShortJumpOffsetEven(c: bv16) ensures CImmJ(c) & 1 == 0 { }
  lemma ShortBranchOffsetEven(c: bv16) ensures CImmB(c) & 1 == 0 { }

  predicate EvenOffset(imm: bv32) { imm & 1 == 0 }

  // The offset of a jump or branch, whatever its encoding.
  lemma OffsetEven(m: Mem, pc: int)
    requires |m| > 0
    ensures var insn := InsnAt(m, pc); insn.Jal? || insn.Branch? ==> EvenOffset(insn.imm)
  {
    hide HalfAt, Join, DecodeC, Decode32, ImmJ, ImmB, CImmJ, CImmB;
    var lo := HalfAt(m, pc);
    var i := Join(lo, HalfAt(m, pc + 2));
    OffsetsEven(i, lo);
    if IsLong(lo) {
      LongOffset(i);
    } else if DecodeC(lo) != Illegal {
      ShortFlow(lo);
    }
  }

  lemma LongOffset(i: bv32)
    ensures Decode32(i).Jal? ==> Decode32(i).imm == ImmJ(i)
    ensures Decode32(i).Branch? ==> Decode32(i).imm == ImmB(i)
  {
    hide ImmJ, ImmB, Decode32, Rd, Rs1, Rs2, Funct3;
    Signals.Inverse(i);
  }

  lemma EvenSum(x: int, y: int, n: int)
    requires n > 0 && n % 2 == 0 && x % 2 == 0 && y % 2 == 0
    ensures (x + y) % n % 2 == 0
  {
    var q, r := (x + y) / n, (x + y) % n;
    var h, k := n / 2, (x + y) / 2;
    assert x + y == q * n + r && n == 2 * h && x + y == 2 * k;
    assert q * (2 * h) == 2 * (q * h);
    DivMod(r, 2, k - q * h, 0);
  }

  lemma HalfOf(n: int)
    requires n % 4 == 0
    ensures n % 2 == 0
  {
    DivMod(n, 2, 2 * (n / 4), 0);
  }

  lemma EvenClear(t: int)
    ensures IsEven(t - t % 2)
  {
    DivMod(t - t % 2, 2, t / 2, 0);
  }

  lemma SequentialEven(m: Mem, pc: int)
    requires Sized(|m|) && IsEven(pc)
    ensures |m| > 0 && IsEven(NextPc(m, pc))
  {
    hide LongAt, Sized, Pow2;
    SizeFits(|m|);
    HalfOf(|m|);
    EvenSum(pc, if LongAt(m, pc) then 4 else 2, |m|);
  }

  lemma RelativeEven(n: nat, pc: int, imm: bv32)
    requires Sized(n) && IsEven(pc) && EvenOffset(imm)
    ensures n > 0 && IsEven((pc + ToWord(imm)) % n)
  {
    hide Sized, Pow2, ToWord;
    SizeFits(n);
    HalfOf(n);
    EvenWord(imm);
    EvenSum(pc, ToWord(imm), n);
  }

  lemma TargetEvenOf(a: Arch, insn: Insn)
    requires Valid(a) && IsEven(a.pc) && !insn.Mret?
    requires IsEven(NextPc(a.mem, a.pc)) && (insn.Jal? || insn.Branch? ==> IsEven((a.pc + ToWord(insn.imm)) % |a.mem|))
    ensures IsEven(Target(a, insn))
  {
    hide InsnAt, NextPc, Sized, Pow2, Holds, ToWord, EffectiveAddress, IsEven;
    if insn.Jalr? {
      EvenClear(EffectiveAddress(a, insn.rs1, insn.imm));
    }
  }

  lemma ValidSize(a: Arch)
    requires Valid(a)
    ensures Sized(|a.mem|) && |a.mem| > 0
  {
    hide Pow2, Sized;
  }

  lemma TargetEven(a: Arch)
    requires Valid(a) && IsEven(a.pc) && !InsnAt(a.mem, a.pc).Mret?
    ensures IsEven(Target(a, InsnAt(a.mem, a.pc)))
  {
    hide *;
    ValidSize(a);
    var insn := InsnAt(a.mem, a.pc);
    SequentialEven(a.mem, a.pc);
    if insn.Jal? || insn.Branch? {
      OffsetEven(a.mem, a.pc);
      RelativeEven(|a.mem|, a.pc, insn.imm);
    }
    TargetEvenOf(a, insn);
  }

  // A byte of a planted trap.
  lemma TrapByte(m: Mem, base: Mem, slots: seq<Slot>, j: nat, pc: int, k: nat)
    requires Overlaid(m, base, slots) && j < |slots| && slots[j].used && k < |slots[j].orig|
    requires 0 <= pc < |m| && slots[j].addr % |m| == pc
    ensures |slots[j].orig| == 2 || |slots[j].orig| == 4
    ensures Get(m, pc + k) == Trap(|slots[j].orig|)[k]
  {
    hide Overlaid, Trap, Offset, Disjoint;
    OverlaidApart(m, base, slots);
    var n, a := |m|, slots[j].addr;
    OffsetOf(n, a, k);
    SameResidue(a, pc, k, n);
    CoveredByte(m, base, slots, j, (pc + k) % n);
  }

  lemma SameResidue(a: int, pc: int, k: int, n: int)
    requires n > 0 && a % n == pc
    ensures (a + k) % n == (pc + k) % n
  {
    assert a + k == pc + k + a / n * n;
    ModShift(pc + k, a / n, n);
  }

  lemma TrapCodes()
    ensures HalfBits(0x02, 0x90) == 0x9002 && HalfBits(0x73, 0x00) == 0x0073 && HalfBits(0x10, 0x00) == 0x0010
    ensures DecodeC(0x9002) == Ebreak && !IsLong(0x9002) && IsLong(0x0073) && Join(0x0073, 0x0010) == 0x0010_0073
    ensures Decode32(0x0010_0073) == Ebreak
  {
  }

  // What the core fetches at a patched address is a breakpoint instruction.
  lemma FetchesTrap(m: Mem, base: Mem, slots: seq<Slot>, j: nat, pc: int)
    requires Overlaid(m, base, slots) && j < |slots| && slots[j].used && IsEven(pc)
    requires 0 <= pc < |m| && slots[j].addr % |m| == pc
    ensures InsnAt(m, pc) == Ebreak
  {
    hide Overlaid, HalfBits, DecodeC, Decode32, Join, IsLong, Get;
    OverlaidApart(m, base, slots);
    TrapCodes();
    TrapByte(m, base, slots, j, pc, 0);
    TrapByte(m, base, slots, j, pc, 1);
    if |slots[j].orig| == 4 {
      TrapByte(m, base, slots, j, pc, 2);
      TrapByte(m, base, slots, j, pc, 3);
    }
  }

  lemma NoHandler(a: Arch, insn: Insn)
    requires Valid(a) && !a.csrs.handler
    ensures !CsrsAfter(a, insn).handler
  {
    hide Sized, Pow2, ReadCsr, CsrValue, SourceValue;
  }

  lemma StepValid(a: Arch, mtvec: int)
    requires Valid(a) && 0 <= mtvec < |a.mem|
    ensures Valid(Step(a, mtvec)) && |Step(a, mtvec).mem| == |a.mem|
  {
    hide Execute, InsnAt, Sized;
    CoreRefines.ExecuteKeepsValid(a, InsnAt(a.mem, a.pc), mtvec);
  }

  // The breakpoint instruction traps to the stub, saving the PC and nothing else.
  lemma TrapTaken(r: Arch, mtvec: int)
    requires Valid(r) && !r.csrs.handler && InsnAt(r.mem, r.pc) == Ebreak
    ensures var q := Step(r, mtvec);
      q.pc == mtvec && q.regs == r.regs && q.mem == r.mem && q.csrs.mepc == r.pc && Machine.Mcause(q.csrs) == 3
  {
    hide InsnAt, Sized, Pow2;
    Pow32();
  }

  /* The whole of a single step: cmd_step plants the traps, the core executes the instruction
     at the PC and then a trap, and on re-entry the stub takes the traps out. Saved PC,
     registers and memory are those of one Step of the program as it was. */
  lemma StepTransparent(t: Debuggee, base: Mem, a: Arch, mtvec: int)
    requires Valid(a) && IsEven(a.pc) && 0 <= mtvec < |a.mem| && !a.csrs.handler
    requires Settled(t, base) && a.mem == t.mem
    requires var insn := InsnAt(a.mem, a.pc); !insn.Illegal? && !insn.Ecall? && !insn.Ebreak? && !insn.Mret?
    requires Separate(t.mem, Successors(a.mem, a.pc, a.regs))
    requires Misses(a, PlantAll(t, Successors(a.mem, a.pc, a.regs)).Scratch())
    ensures var t1 := PlantAll(t, Successors(a.mem, a.pc, a.regs));
      && |t1.mem| == |a.mem| && Valid(a.(mem := t1.mem)) && Valid(Step(a.(mem := t1.mem), mtvec))
      && var trapped := Step(Step(a.(mem := t1.mem), mtvec), mtvec);
      && trapped.pc == mtvec && Machine.Mcause(trapped.csrs) == 3
      && trapped.csrs.mepc == Step(a, mtvec).pc && trapped.regs == Step(a, mtvec).regs
      && var t2 := RemoveStep(t1.(mem := trapped.mem));
      && t2.mem == Step(a, mtvec).mem && Quiet(t2) && t2.User() == t.User()
  {
    var targets := Successors(a.mem, a.pc, a.regs);
    var t1 := PlantAll(t, targets);
    var insn := InsnAt(a.mem, a.pc);
    hide Overlaid, Pow2, Sized, InsnAt, Misses, Settled, Separate, PlantAll, Successors, Target, CsrsAfter, Result,
      Stored, Destination, Write, RemoveStep, NextPc, IsEven, Quiet;
    StepPlants(t, base, targets);
    StepUnderPatches(a, t1.mem, t1.Scratch(), mtvec);
    var s, r := Step(a, mtvec), Step(a.(mem := t1.mem), mtvec);
    NoHandler(a, insn);
    StepValid(a, mtvec);
    StepValid(a.(mem := t1.mem), mtvec);
    TargetEven(a);
    PredictorCovers(a);
    var i :| 0 <= i < |targets| && targets[i] % |a.mem| == Target(a, insn);
    var j := if HoldsTrap(t1.Scratch()[0], targets[i]) then 0 else 1;
    FetchesTrap(r.mem, s.mem, t1.Scratch(), j, r.pc);
    TrapTaken(r, mtvec);
    assert t1.(mem := r.mem).Scratch() == t1.Scratch() && t1.(mem := r.mem).User() == t1.User();
    ScratchRemoved(t1.(mem := r.mem), s.mem);
  }
}
