/** The core on its memory bus: which clocks a bus may answer with, and the memory after each. */
module Bus {
  import opened Machine
  import opened Core

  // The read the core is waiting for, as a word index.
  datatype Pending = Nothing | Reading(word: int)

  datatype System = System(core: Core, mem: Mem, pending: Pending)

  predicate ValidSystem(p: Params, s: System)
  {
    && ValidCore(p, s.core) && |s.mem| == p.size
    && (s.pending.Reading? ==> 0 <= s.pending.word < p.size / 4)
  }

  function WordAt(m: Mem, w: int): Lanes
    requires 0 <= w && 4 * w + 3 < |m|
  {
    Lanes(m[4 * w], m[4 * w + 1], m[4 * w + 2], m[4 * w + 3])
  }

  // A bus may stall a read or a store for any number of clocks, but only one that is in
  // progress, and read data is good in the clock that does not stall. Everything else the
  // core may see on the data lines is arbitrary.
  predicate BusOk(p: Params, s: System, x: Inputs)
    requires ValidSystem(p, s)
  {
    && (x.rbusy ==> s.pending.Reading?)
    && (x.wbusy ==> s.core.front.state.WaitUnit? && IsStore(s.core.front.instr))
    && (s.pending.Reading? && !x.rbusy ==> (Fits(p); x.rdata == WordAt(s.mem, s.pending.word)))
  }

  // That leaves a bus free to stall as it likes, whatever is requested meanwhile, and to show
  // anything where no data is due.
  lemma StallsFreely(p: Params, s: System, d: Lanes, rbusy: bool, wbusy: bool, irq: bool, nmi: bool, dbg: bool)
    requires ValidSystem(p, s) && (rbusy ==> s.pending.Reading?)
    requires wbusy ==> s.core.front.state.WaitUnit? && IsStore(s.core.front.instr)
    ensures s.pending.Reading? ==> 4 * s.pending.word + 3 < |s.mem|
    ensures var shown := if s.pending.Reading? && !rbusy then WordAt(s.mem, s.pending.word) else d;
      BusOk(p, s, Inputs(shown, rbusy, wbusy, irq, nmi, dbg))
  {
    hide WordAt, IsStore;
    Fits(p);
  }

  lemma Fits(p: Params)
    requires ValidParams(p)
    ensures p.size >= 256 && p.size % 4 == 0
    ensures forall w: int :: 0 <= w < p.size / 4 ==> 4 * w + 3 < p.size
  {
    SizeFits(p.size);
  }

  // Four byte lanes written under a mask.
  function PutLanes(m: Mem, w: int, k0: bool, k1: bool, k2: bool, k3: bool, d: Lanes): (r: Mem)
    requires 0 <= w && 4 * w + 3 < |m|
    ensures |r| == |m|
    ensures forall i :: 0 <= i < |m| && i / 4 != w ==> r[i] == m[i]
    ensures WordAt(r, w) == Lanes(if k0 then d.b0 else m[4 * w], if k1 then d.b1 else m[4 * w + 1],
                                  if k2 then d.b2 else m[4 * w + 2], if k3 then d.b3 else m[4 * w + 3])
  {
    m[4 * w := if k0 then d.b0 else m[4 * w]]
     [4 * w + 1 := if k1 then d.b1 else m[4 * w + 1]]
     [4 * w + 2 := if k2 then d.b2 else m[4 * w + 2]]
     [4 * w + 3 := if k3 then d.b3 else m[4 * w + 3]]
  }

  // What a clock's store does to the memory.
  function Written(p: Params, c: Core, m: Mem): (r: Mem)
    requires ValidCore(p, c) && |m| == p.size
    ensures |r| == |m|
  {
    Fits(p);
    if c.front.state.ExecuteInstr? && IsStore(c.front.instr) then
      PutLanes(m, LoadStoreAddr(p, c) / 4, MemWmask(p, c, 0), MemWmask(p, c, 1), MemWmask(p, c, 2), MemWmask(p, c, 3),
               MemWdata(p, c))
    else m
  }

  function NextPending(p: Params, s: System, x: Inputs, n: Core): Pending
    requires ValidSystem(p, s)
  {
    if MemRstrb(s.core) then Reading(MemWord(p, s.core))
    else if s.core.front.state.WaitInstr? && !x.rbusy then Nothing
    else if s.core.front.state.WaitUnit? && !n.front.state.WaitUnit? then Nothing
    else s.pending
  }

  function NextSystem(p: Params, s: System, x: Inputs): (r: System)
    requires ValidSystem(p, s)
    ensures ValidSystem(p, r)
  {
    Fits(p);
    var n := Next(p, s.core, x);
    System(n, Written(p, s.core, s.mem), NextPending(p, s, x, n))
  }

  lemma GetDirect(m: Mem, a: int)
    requires 0 <= a < 2 * |m|
    ensures Get(m, a) == if a < |m| then m[a] else m[a - |m|]
  {
    ModOnce(a, |m|);
  }

  lemma ModOnce(a: int, n: int)
    requires n > 0 && 0 <= a < 2 * n
    ensures a % n == if a < n then a else a - n
  {
  }

  // What the bus and the interrupt lines do in every clock of a run.
  type Stimulus = nat -> Inputs

  // The system after n clocks of a run.
  function At(p: Params, s: System, xs: Stimulus, n: nat): (r: System)
    requires ValidSystem(p, s)
    ensures ValidSystem(p, r)
  {
    if n == 0 then s else NextSystem(p, At(p, s, xs, n - 1), xs(n - 1))
  }
}
