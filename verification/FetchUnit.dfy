/** The fetch unit delivers the instruction stored at the program counter, in every run. */
module FetchUnit {
  import opened Arith
  import opened Isa
  import opened Machine
  import opened Core
  import opened Bus
  import Bits
  import Decompressor

  // The instruction at the PC straddles two words and its first half is in the cache.
  predicate Straddles(c: Core) { CurrentHit(c) && UnalignedLong(c.front.cachedData, c.front.pc) }

  predicate Coherent(p: Params, s: System)
    requires ValidSystem(p, s)
  {
    Fits(p);
    s.core.front.cachedData == WordAt(s.mem, s.core.front.cachedAddr)
  }

  // From reset until the first word arrives the cache holds nothing, under the top address.
  predicate Cold(p: Params, s: System)
  {
    && s.core.front.cachedAddr == p.size / 4 - 1 && s.core.front.pc == 0
    && !s.core.front.secondHalf && !s.core.front.skipFetch && !s.core.front.state.ExecuteInstr?
    && (s.core.front.state.WaitInstr? ==> s.pending == Reading(0))
  }

  // The word that holds the last halfword of the instruction at pc.
  function LastWord(m: Mem, pc: int): int
    requires |m| > 0
  {
    if pc / 2 % 2 == 1 && LongAt(m, pc) then (pc + 4) % |m| / 4 else pc / 4
  }

  predicate OperandsRead(c: Core)
    requires |c.back.regs| == 32
  {
    c.front.rs1 == Read(c.back.regs, Rs1(c.front.instr)) && c.front.rs2 == Read(c.back.regs, Rs2(c.front.instr))
  }

  // In S_EXECUTE the instruction register, its length flag and the operand registers belong
  // to the instruction that memory holds at the PC.
  predicate Fetched(p: Params, s: System)
    requires ValidSystem(p, s)
  {
    Fits(p);
    && s.core.front.instr
       == Decompressor.Decompress(Join(HalfAt(s.mem, s.core.front.pc), HalfAt(s.mem, s.core.front.pc + 2)))
    && s.core.front.longInstr == LongAt(s.mem, s.core.front.pc)
    && ((IsWfi(s.core.front.instr) && Rd(s.core.front.instr) != 0) || OperandsRead(s.core))
    && s.core.front.cachedAddr == LastWord(s.mem, s.core.front.pc)
  }

  predicate FetchInv(p: Params, s: System)
  {
    && ValidSystem(p, s)
    && (Cold(p, s) || Coherent(p, s))
    && (s.core.front.secondHalf ==> !s.core.front.state.ExecuteInstr? && Straddles(s.core))
    && match s.core.front.state
       case FetchInstr => true
       case WaitInstr =>
         if s.pending.Nothing? then !s.core.front.secondHalf && CurrentHit(s.core) && !Straddles(s.core)
         else s.pending.word == MemWord(p, s.core)
       case ExecuteInstr => Fetched(p, s) && s.pending.Nothing?
       case WaitUnit =>
         && (s.core.front.skipFetch ==> !s.core.front.secondHalf && CurrentHit(s.core) && !Straddles(s.core))
         && (s.pending.Reading? ==> IsLoad(s.core.front.instr) && s.pending.word == LoadStoreAddr(p, s.core) / 4)
  }

  // What reset leaves of the core, and nothing asked of the bus.
  predicate ResetCore(p: Params, c: Core)
  {
    && ValidCore(p, c)
    && c.front.state.WaitUnit? && c.front.pc == 0 && c.front.cachedAddr == p.size / 4 - 1
    && !c.front.secondHalf && !c.front.skipFetch
    && !c.back.mstatus && !c.back.mcause && !c.back.dbgMask && !c.back.mul.Busy() && !c.back.shift.Busy()
    && 0 <= c.back.div.msk < Pow2(32)
  }

  predicate Reset(p: Params, s: System)
  {
    ValidSystem(p, s) && ResetCore(p, s.core) && s.pending.Nothing?
  }

  lemma LastWordFits(m: Mem, pc: int)
    requires |m| >= 256 && |m| % 4 == 0 && 0 <= pc < |m|
    ensures 0 <= LastWord(m, pc) && 4 * LastWord(m, pc) + 3 < |m|
  {
    hide LongAt;
    WordSplit(pc, |m|);
    if pc / 2 % 2 == 1 { NextWord(pc, |m|); }
  }

  // A store that is executing does not change the last word of its own encoding, the one word
  // the core keeps a copy of.
  predicate Undisturbed(p: Params, s: System)
    requires ValidSystem(p, s)
  {
    Fits(p);
    LastWordFits(s.mem, s.core.front.pc);
    var w := LastWord(s.mem, s.core.front.pc);
    s.core.front.state.ExecuteInstr? ==> WordAt(Written(p, s.core, s.mem), w) == WordAt(s.mem, w)
  }

  // The two halfwords of a word, as lanes.
  lemma HalvesAt(m: Mem, w: int)
    requires 0 <= w && 4 * w + 3 < |m|
    ensures HalfAt(m, 4 * w) == LoHalf(WordAt(m, w)) && HalfAt(m, 4 * w + 2) == HiHalf(WordAt(m, w))
  {
    hide HalfBits, Get;
    GetDirect(m, 4 * w);
    GetDirect(m, 4 * w + 1);
    GetDirect(m, 4 * w + 2);
    GetDirect(m, 4 * w + 3);
  }

  // The lowest bit of an address, and a whole turn of the address space, do not matter.
  lemma SameHalf(m: Mem, a: int, h: int)
    requires |m| > 0 && (a == 2 * h || a == 2 * h + 1)
    ensures HalfAt(m, a) == HalfAt(m, 2 * h)
  {
    hide HalfBits, Get;
  }

  lemma HalfWraps(m: Mem, n: int)
    requires |m| == 4 * n && n > 0
    ensures HalfAt(m, 4 * n) == HalfAt(m, 0)
  {
    hide HalfBits;
    GetDirect(m, |m|);
    GetDirect(m, |m| + 1);
    GetDirect(m, 0);
    GetDirect(m, 1);
  }

  lemma WordSplit(pc: int, n: int)
    requires n % 4 == 0 && 0 <= pc < n
    ensures 0 <= pc / 4 && 4 * (pc / 4) + 3 < n
    ensures var e := 4 * (pc / 4) + (if pc / 2 % 2 == 1 then 2 else 0); pc == e || pc == e + 1
  {
  }

  lemma NextWord(pc: int, n: int)
    requires n >= 256 && n % 4 == 0 && 0 <= pc < n && pc / 2 % 2 == 1
    ensures 0 <= (pc + 4) % n / 4 && 4 * ((pc + 4) % n / 4) + 3 < n
    ensures (pc + 4) % n / 4 == if 4 * (pc / 4) + 4 < n then pc / 4 + 1 else 0
  {
    ModOnce(pc + 4, n);
  }

  // The halfwords at pc and after it, as lanes of memory words.
  lemma HalvesOfWord(m: Mem, pc: int)
    requires |m| % 4 == 0 && 0 <= pc < |m| && pc / 2 % 2 == 0
    ensures 4 * (pc / 4) + 3 < |m|
    ensures HalfAt(m, pc) == LoHalf(WordAt(m, pc / 4)) && HalfAt(m, pc + 2) == HiHalf(WordAt(m, pc / 4))
  {
    hide *;
    WordSplit(pc, |m|);
    HalvesFrom(m, pc, pc / 4);
  }

  lemma HalvesFrom(m: Mem, pc: int, w: int)
    requires 0 <= w && 4 * w + 3 < |m| && (pc == 4 * w || pc == 4 * w + 1)
    ensures HalfAt(m, pc) == LoHalf(WordAt(m, w)) && HalfAt(m, pc + 2) == HiHalf(WordAt(m, w))
  {
    hide *;
    HalvesAt(m, w);
    SameHalf(m, pc, 2 * w);
    SameHalf(m, pc + 2, 2 * w + 1);
  }

  lemma HalvesOfTwoWords(m: Mem, pc: int)
    requires |m| >= 256 && |m| % 4 == 0 && 0 <= pc < |m| && pc / 2 % 2 == 1
    ensures 4 * (pc / 4) + 3 < |m| && 0 <= (pc + 4) % |m| / 4 && 4 * ((pc + 4) % |m| / 4) + 3 < |m|
    ensures HalfAt(m, pc) == HiHalf(WordAt(m, pc / 4))
    ensures HalfAt(m, pc + 2) == LoHalf(WordAt(m, (pc + 4) % |m| / 4))
  {
    hide *;
    WordSplit(pc, |m|);
    NextWord(pc, |m|);
    HalvesAcross(m, |m| / 4, pc, pc / 4, (pc + 4) % |m| / 4);
  }

  lemma HalvesAcross(m: Mem, n: int, pc: int, w: int, v: int)
    requires |m| == 4 * n && 0 <= w < n && (pc == 4 * w + 2 || pc == 4 * w + 3)
    requires v == if w + 1 < n then w + 1 else 0
    ensures HalfAt(m, pc) == HiHalf(WordAt(m, w)) && HalfAt(m, pc + 2) == LoHalf(WordAt(m, v))
  {
    hide *;
    HalvesAt(m, w);
    HalvesAt(m, v);
    SameHalf(m, pc, 2 * w + 1);
    SameHalf(m, pc + 2, 2 * w + 2);
    if w + 1 == n {
      HalfWraps(m, n);
    }
  }

  // A compressed instruction is decompressed from its own halfword alone.
  lemma ShortIgnoresHigh(lo: bv16, h1: bv16, h2: bv16)
    requires !IsLong(lo)
    ensures Decompressor.Decompress(Join(lo, h1)) == Decompressor.Decompress(Join(lo, h2))
  {
    hide Join, Decompressor.Expand;
    Decompressor.JoinLow(lo, h1);
    Decompressor.JoinLow(lo, h2);
  }

  // Enough for that: the store goes to another word, or there is none.
  lemma StoresElsewhere(p: Params, s: System)
    requires ValidSystem(p, s)
    requires s.core.front.state.ExecuteInstr? && IsStore(s.core.front.instr) ==>
      LoadStoreAddr(p, s.core) / 4 != LastWord(s.mem, s.core.front.pc)
    ensures Undisturbed(p, s)
  {
    hide LoadStoreAddr, MemWdata, MemWmask, IsStore, PutLanes, LastWord;
    Fits(p);
    LastWordFits(s.mem, s.core.front.pc);
  }

  lemma ResetInv(p: Params, s: System)
    requires Reset(p, s)
    ensures FetchInv(p, s)
  {
  }

  // What S_WAIT_INSTR hands to the decompressor, when it does not go back for the second half.
  lemma InputIsMemory(p: Params, s: System, x: Inputs)
    requires FetchInv(p, s) && s.core.front.state.WaitInstr? && BusOk(p, s, x) && !x.rbusy
    requires !UnalignedLong(CachedMem(s.core, x), s.core.front.pc) || s.core.front.secondHalf
    ensures Decompressed(s.core, x)
         == Decompressor.Decompress(Join(HalfAt(s.mem, s.core.front.pc), HalfAt(s.mem, s.core.front.pc + 2)))
    ensures (DecompInput(s.core, x) & 3 == 3) == LongAt(s.mem, s.core.front.pc)
  {
    hide Join, Decompressor.Decompress, HalfAt, LoHalf, HiHalf, WordAt;
    var pc, m := s.core.front.pc, s.mem;
    Fits(p);
    CachedIsMemory(p, s, x);
    if pc / 2 % 2 == 0 {
      HalvesOfWord(m, pc);
      Decompressor.JoinLow(HalfAt(m, pc), HalfAt(m, pc + 2));
    } else {
      HalvesOfTwoWords(m, pc);
      Decompressor.JoinLow(HalfAt(m, pc), LoHalf(x.rdata));
      if !IsLong(HalfAt(m, pc)) {
        ShortIgnoresHigh(HalfAt(m, pc), LoHalf(x.rdata), HalfAt(m, pc + 2));
      }
    }
  }

  // The word the current PC lies in comes from the cache or from the bus, and either way
  // it is the word in memory; so is the second one when the second half is being fetched.
  lemma CachedIsMemory(p: Params, s: System, x: Inputs)
    requires FetchInv(p, s) && s.core.front.state.WaitInstr? && BusOk(p, s, x) && !x.rbusy
    ensures 4 * (s.core.front.pc / 4) + 3 < |s.mem|
    ensures CachedMem(s.core, x) == WordAt(s.mem, s.core.front.pc / 4)
    ensures s.core.front.secondHalf ==> MemWord(p, s.core) == (s.core.front.pc + 4) % |s.mem| / 4
    ensures s.core.front.secondHalf ==> x.rdata == WordAt(s.mem, MemWord(p, s.core))
    ensures !s.core.front.secondHalf ==> MemWord(p, s.core) == s.core.front.pc / 4
  {
    hide WordAt, HiHalf;
    Fits(p);
  }

  // Nothing is written back while an instruction is being fetched.
  lemma QuietRegs(p: Params, c: Core, x: Inputs)
    requires ValidCore(p, c) && (c.front.state.WaitInstr? || c.front.state.FetchInstr?)
    ensures NextRegs(p, c, x) == c.back.regs
  {
  }

  // A fetch that has all of the instruction.
  lemma InstructionArrives(p: Params, s: System, x: Inputs)
    requires FetchInv(p, s) && s.core.front.state.WaitInstr? && BusOk(p, s, x) && !x.rbusy
    requires !UnalignedLong(CachedMem(s.core, x), s.core.front.pc) || s.core.front.secondHalf
    ensures FetchInv(p, NextSystem(p, s, x)) && NextSystem(p, s, x).core.front.state.ExecuteInstr?
  {
    hide Decompressed, DecompInput, HalfAt, LastWord, WordAt, Decompressor.Decompress, Join, NextBack, NextRegs,
      Filled, MemWord, UnalignedLong, CachedMem, Rs1, Rs2, Read, IsStore, IsLoad;
    QuietRegs(p, s.core, x);
    BackRegs(p, s.core, x);
    InputIsMemory(p, s, x);
    CachedAfterFetch(p, s, x);
  }

  lemma BackRegs(p: Params, c: Core, x: Inputs)
    requires ValidCore(p, c)
    ensures NextBack(p, c, x).regs == NextRegs(p, c, x)
  {
    hide NextRegs, NextMul, NextDiv, NextShift, NextMstatus, NextMepc, TrapEntry, IsMret;
  }

  // The word left in the cache is the one with the instruction's last halfword.
  lemma CachedAfterFetch(p: Params, s: System, x: Inputs)
    requires FetchInv(p, s) && s.core.front.state.WaitInstr? && BusOk(p, s, x) && !x.rbusy
    requires !UnalignedLong(CachedMem(s.core, x), s.core.front.pc) || s.core.front.secondHalf
    ensures var c, f := s.core.front, Filled(p, s.core, x);
      && f.pc == c.pc && f.skipFetch == c.skipFetch
      && f.cachedAddr == LastWord(s.mem, c.pc)
      && 4 * f.cachedAddr + 3 < |s.mem| && f.cachedData == WordAt(s.mem, f.cachedAddr)
  {
    hide WordAt, HalfAt, HiHalf, MemWord;
    Fits(p);
    CachedIsMemory(p, s, x);
    LastWordFetched(p, s, x);
  }

  lemma LastWordFetched(p: Params, s: System, x: Inputs)
    requires FetchInv(p, s) && s.core.front.state.WaitInstr? && BusOk(p, s, x) && !x.rbusy
    requires !UnalignedLong(CachedMem(s.core, x), s.core.front.pc) || s.core.front.secondHalf
    ensures LastWord(s.mem, s.core.front.pc)
         == if s.core.front.secondHalf then (s.core.front.pc + 4) % |s.mem| / 4 else s.core.front.pc / 4
  {
    hide WordAt, HalfAt, HiHalf, MemWord, CachedMem;
    Fits(p);
    CachedIsMemory(p, s, x);
    if s.core.front.pc / 2 % 2 == 1 {
      HalvesOfTwoWords(s.mem, s.core.front.pc);
    }
  }

  // A fetch that has to go back for the second half.
  lemma FirstHalfArrives(p: Params, s: System, x: Inputs)
    requires FetchInv(p, s) && s.core.front.state.WaitInstr? && BusOk(p, s, x) && !x.rbusy
    requires UnalignedLong(CachedMem(s.core, x), s.core.front.pc) && !s.core.front.secondHalf
    ensures FetchInv(p, NextSystem(p, s, x))
    ensures NextSystem(p, s, x).core.front.state.FetchInstr? && NextSystem(p, s, x).core.front.secondHalf
  {
    hide Decompressed, DecompInput, HalfAt, LoHalf, HiHalf, WordAt, Decompressor.Decompress, Join, NextBack, MemWord;
    CachedIsMemory(p, s, x);
  }

  lemma WaitInstrKeepsInv(p: Params, s: System, x: Inputs)
    requires FetchInv(p, s) && s.core.front.state.WaitInstr? && BusOk(p, s, x)
    ensures FetchInv(p, NextSystem(p, s, x))
  {
    if x.rbusy {
      hide NextBack, MemWord, HiHalf, WordAt;
    } else if UnalignedLong(CachedMem(s.core, x), s.core.front.pc) && !s.core.front.secondHalf {
      FirstHalfArrives(p, s, x);
    } else {
      InstructionArrives(p, s, x);
    }
  }

  lemma FetchInstrKeepsInv(p: Params, s: System, x: Inputs)
    requires FetchInv(p, s) && s.core.front.state.FetchInstr? && BusOk(p, s, x)
    ensures FetchInv(p, NextSystem(p, s, x))
  {
    hide NextBack, HiHalf, WordAt, UnalignedLong, IsLoad, IsStore, LoadStoreAddr, Fetched, Written;
    NothingWritten(p, s);
  }

  lemma NothingWritten(p: Params, s: System)
    requires ValidSystem(p, s) && !s.core.front.state.ExecuteInstr?
    ensures Written(p, s.core, s.mem) == s.mem
  {
    hide LoadStoreAddr;
  }

  lemma WaitUnitKeepsInv(p: Params, s: System, x: Inputs)
    requires FetchInv(p, s) && s.core.front.state.WaitUnit?
    ensures FetchInv(p, NextSystem(p, s, x))
  {
    hide NextBack, HiHalf, WordAt, Busy, IsLoad, LoadStoreAddr, Fetched, MemWord, UnalignedLong;
    SameAddress(p, s.core, NextSystem(p, s, x).core);
  }

  lemma SameAddress(p: Params, c: Core, n: Core)
    requires ValidCore(p, c) && ValidCore(p, n) && n.front.instr == c.front.instr && n.front.rs1 == c.front.rs1
    ensures LoadStoreAddr(p, n) == LoadStoreAddr(p, c)
  {
  }

  lemma WfiIsQuiet(p: Params, c: Core, m: Mem)
    requires ValidCore(p, c) && |m| == p.size && IsWfi(c.front.instr)
    ensures !IsLoad(c.front.instr) && !IsStore(c.front.instr) && Written(p, c, m) == m
  {
    hide PutLanes;
  }

  lemma OnlyLoadsRead(i: bv32)
    ensures IsLoad(i) ==> NeedToWait(i)
  {
  }

  lemma StallKeepsInv(p: Params, s: System, x: Inputs)
    requires FetchInv(p, s) && WfiStall(s.core, x)
    ensures FetchInv(p, NextSystem(p, s, x))
  {
    hide NextBack, HiHalf, HalfAt, LastWord, WordAt, IsStore, LoadStoreAddr, PcNew, TrapEntry, Written, IsLoad,
      NeedToWait, UnalignedLong, NextHit, Read, Rd, Rs1, Rs2, NextRegs, Decompressor.Decompress, Join, MemWord,
      IsSystem;
    WfiIsQuiet(p, s.core, s.mem);
    BackRegs(p, s.core, x);
    if Rd(s.core.front.instr) == 0 { NoDestination(p, s.core, x); }
  }

  lemma NoDestination(p: Params, c: Core, x: Inputs)
    requires ValidCore(p, c) && Rd(c.front.instr) == 0
    ensures NextRegs(p, c, x) == c.back.regs
  {
    hide WriteBackData, Rd;
  }

  // The cached word survives the clock, and the address of a load is kept for S_WAIT.
  lemma AdvanceKeepsInv(p: Params, s: System, x: Inputs)
    requires FetchInv(p, s) && s.core.front.state.ExecuteInstr? && Undisturbed(p, s) && !WfiStall(s.core, x)
    ensures FetchInv(p, NextSystem(p, s, x))
  {
    hide NextBack, HiHalf, HalfAt, LastWord, WordAt, IsStore, LoadStoreAddr, PcNew, TrapEntry, IrqAccepted, Written,
      IsLoad, NeedToWait, OperandsRead, Decompressor.Decompress, Join, WfiStall;
    Fits(p);
    OnlyLoadsRead(s.core.front.instr);
    SameAddress(p, s.core, NextSystem(p, s, x).core);
  }

  // What the cached word says about an instruction that begins in it.
  lemma CachedBeginning(m: Mem, w: int, pc: int)
    requires |m| >= 256 && |m| % 4 == 0 && 0 <= pc < |m| && w == pc / 4
    ensures 0 <= w && 4 * w + 3 < |m|
    ensures UnalignedLong(WordAt(m, w), pc) <==> LastWord(m, pc) != w
  {
    hide WordAt, HiHalf, HalfAt, IsLong;
    WordSplit(pc, |m|);
    if pc / 2 % 2 == 1 {
      HalvesOfTwoWords(m, pc);
      NextWord(pc, |m|);
    }
  }

  // Nothing is fetched twice: on leaving S_EXECUTE the core skips the fetch exactly when the next
  // instruction lies in the cached word, and starts with the second half exactly when it only
  // begins there.
  lemma FetchesOnlyMissing(p: Params, s: System, x: Inputs)
    requires FetchInv(p, s) && s.core.front.state.ExecuteInstr? && Undisturbed(p, s)
    requires !WfiStall(s.core, x) && !TrapEntry(s.core, x)
    ensures var n := NextSystem(p, s, x);
      var begins := n.core.front.pc / 4 == n.core.front.cachedAddr;
      var ends := LastWord(n.mem, n.core.front.pc) == n.core.front.cachedAddr;
      && (n.core.front.skipFetch <==> begins && ends) && (n.core.front.secondHalf <==> begins && !ends)
      && (n.core.front.state.WaitInstr? <==> begins && ends && !NeedToWait(s.core.front.instr))
  {
    hide NextBack, WordAt, HiHalf, HalfAt, LastWord, Written, PcNew, NeedToWait, WfiStall, TrapEntry, UnalignedLong,
      OperandsRead, LongAt, IsLong, Join, Decompressor.Decompress, IsWfi, Rd;
    Fits(p);
    CoherentIsUndisturbed(p, s, x);
    var n := NextSystem(p, s, x);
    if n.core.front.pc / 4 == n.core.front.cachedAddr {
      CachedBeginning(n.mem, n.core.front.cachedAddr, n.core.front.pc);
    }
  }

  // What a store writes shows in the word it goes to.
  lemma StoreShows(p: Params, s: System)
    requires ValidSystem(p, s) && s.core.front.state.ExecuteInstr? && IsStore(s.core.front.instr)
    ensures var w := LoadStoreAddr(p, s.core) / 4;
      && 0 <= w && 4 * w + 3 < |s.mem|
      && (WordAt(Written(p, s.core, s.mem), w) == WordAt(s.mem, w) <==> Written(p, s.core, s.mem) == s.mem)
  {
    hide LoadStoreAddr, MemWdata, MemWmask, IsStore;
    Fits(p);
    var w := LoadStoreAddr(p, s.core) / 4;
    WordIndex(LoadStoreAddr(p, s.core), p.size);
    var r := Written(p, s.core, s.mem);
    if WordAt(r, w) == WordAt(s.mem, w) {
      forall i | 0 <= i < |r| ensures r[i] == s.mem[i] {
        if i / 4 == w { assert i == 4 * w || i == 4 * w + 1 || i == 4 * w + 2 || i == 4 * w + 3; }
      }
    }
  }

  // When the copy goes stale: exactly when a store into the last word of its own encoding writes
  // anything but what is there.
  lemma CoherentExactly(p: Params, s: System, x: Inputs)
    requires FetchInv(p, s) && s.core.front.state.ExecuteInstr?
    ensures Coherent(p, NextSystem(p, s, x)) <==>
      (IsStore(s.core.front.instr) && LoadStoreAddr(p, s.core) / 4 == LastWord(s.mem, s.core.front.pc) ==>
       Written(p, s.core, s.mem) == s.mem)
  {
    hide NextBack, WordAt, Written, WfiStall, TrapEntry, PcNew, NeedToWait, IrqAccepted, UnalignedLong, Fetched,
      NextHit;
    Fits(p);
    CoherentIsUndisturbed(p, s, x);
    if IsStore(s.core.front.instr) && LoadStoreAddr(p, s.core) / 4 == LastWord(s.mem, s.core.front.pc) {
      StoreShows(p, s);
    } else {
      StoresElsewhere(p, s);
    }
  }

  lemma CoherentIsUndisturbed(p: Params, s: System, x: Inputs)
    requires FetchInv(p, s) && s.core.front.state.ExecuteInstr?
    ensures Coherent(p, NextSystem(p, s, x)) <==> Undisturbed(p, s)
  {
    hide NextBack, WordAt, Written, WfiStall, TrapEntry, PcNew, NeedToWait, IrqAccepted, UnalignedLong, NextHit,
      LastWord, OperandsRead, HalfAt, Join, Decompressor.Decompress, IsWfi, LongAt, Rd;
    Fits(p);
    LastWordFits(s.mem, s.core.front.pc);
  }

  lemma ExecuteKeepsInv(p: Params, s: System, x: Inputs)
    requires FetchInv(p, s) && s.core.front.state.ExecuteInstr? && Undisturbed(p, s)
    ensures FetchInv(p, NextSystem(p, s, x))
  {
    hide NextSystem, FetchInv, Undisturbed, WfiStall;
    if WfiStall(s.core, x) {
      StallKeepsInv(p, s, x);
    } else {
      AdvanceKeepsInv(p, s, x);
    }
  }

  lemma StepKeepsInv(p: Params, s: System, x: Inputs)
    requires ValidSystem(p, s) && FetchInv(p, s) && BusOk(p, s, x) && Undisturbed(p, s)
    ensures FetchInv(p, NextSystem(p, s, x))
  {
    hide FetchInv, NextSystem, BusOk, Undisturbed;
    match s.core.front.state
    case FetchInstr => FetchInstrKeepsInv(p, s, x);
    case WaitInstr => WaitInstrKeepsInv(p, s, x);
    case ExecuteInstr => ExecuteKeepsInv(p, s, x);
    case WaitUnit => WaitUnitKeepsInv(p, s, x);
  }

  // The first n clocks of a run keep to the bus protocol and disturb no cached code.
  ghost predicate Admissible(p: Params, s: System, xs: Stimulus, n: nat)
    requires ValidSystem(p, s)
  {
    forall k: nat {:trigger At(p, s, xs, k)} :: k < n ==>
      BusOk(p, At(p, s, xs, k), xs(k)) && Undisturbed(p, At(p, s, xs, k))
  }

  lemma {:induction false} InvHolds(p: Params, s: System, xs: Stimulus, n: nat)
    requires ValidSystem(p, s) && FetchInv(p, s) && Admissible(p, s, xs, n)
    ensures FetchInv(p, At(p, s, xs, n))
  {
    hide FetchInv, NextSystem, BusOk, Undisturbed;
    if n > 0 {
      InvHolds(p, s, xs, n - 1);
      StepKeepsInv(p, At(p, s, xs, n - 1), xs(n - 1));
    }
  }

  // A long instruction passes through the decompressor.
  lemma LongUnchanged(lo: bv16, hi: bv16)
    requires IsLong(lo)
    ensures Decompressor.Decompress(Join(lo, hi)) == Join(lo, hi)
  {
    hide Decompressor.Expand;
    Decompressor.JoinLow(lo, hi);
  }

  // Whenever S_EXECUTE is reached, by whatever mix of cache hits, misses, straddling
  // instructions, skipped fetches, wait states and traps, the instruction register means
  // what memory holds at the PC, and the length flag is its length; of a long instruction it
  // holds the number that its four bytes make.
  lemma FetchCorrect(p: Params, s: System, xs: Stimulus, n: nat)
    requires Reset(p, s) && Admissible(p, s, xs, n)
    requires At(p, s, xs, n).core.front.state.ExecuteInstr?
    ensures var r := At(p, s, xs, n);
      && r.core.front.longInstr == LongAt(r.mem, r.core.front.pc)
      && (r.core.front.longInstr ==> ToWord(r.core.front.instr) == Bits.LongValue(r.mem, r.core.front.pc))
      && (InsnAt(r.mem, r.core.front.pc) != Illegal ==>
          Decode32(r.core.front.instr) == InsnAt(r.mem, r.core.front.pc))
  {
    hide Decode32, Decode, HalfAt, Join, IsLong, Decompressor.Decompress, NextSystem, BusOk, Undisturbed, WordAt,
      UnalignedLong, MemWord, LoadStoreAddr, LastWord, Read, IsWfi, IsStore, Admissible, ToWord, Bits.LongValue;
    ResetInv(p, s);
    InvHolds(p, s, xs, n);
    var r := At(p, s, xs, n);
    Bits.LongNumber(r.mem, r.core.front.pc);
    if LongAt(r.mem, r.core.front.pc) {
      LongUnchanged(HalfAt(r.mem, r.core.front.pc), HalfAt(r.mem, r.core.front.pc + 2));
    }
    if InsnAt(r.mem, r.core.front.pc) != Illegal {
      Decompressor.Faithful(HalfAt(r.mem, r.core.front.pc), HalfAt(r.mem, r.core.front.pc + 2));
    }
  }
}
