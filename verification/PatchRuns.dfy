/** Whole runs of the stub's patching: user breakpoints over the program, step breakpoints over
    both, and everything undone in whatever order. */
module PatchRuns {
  import opened Machine
  import opened Overlay
  import opened Breakpoints

  // base is the program, mid the program with the user breakpoints in it.
  predicate Layered(t: Debuggee, base: Mem, mid: Mem)
  {
    t.Valid() && Overlaid(mid, base, t.User()) && Overlaid(t.mem, mid, t.Scratch())
  }

  predicate Quiet(t: Debuggee)
    requires t.Valid()
  {
    forall i :: NBP - NBP_STEP <= i < NBP ==> !t.bps[i].used
  }

  // No scratch slot in use: the patched memory is the middle layer.
  predicate Settled(t: Debuggee, base: Mem)
  {
    t.Valid() && Quiet(t) && Overlaid(t.mem, base, t.User())
  }

  lemma QuietScratch(t: Debuggee)
    requires t.Valid() && Quiet(t)
    ensures Overlaid(t.mem, t.mem, t.Scratch())
  {
  }

  lemma SettledLayers(t: Debuggee, base: Mem)
    requires Settled(t, base)
    ensures Layered(t, base, t.mem)
  {
    hide Overlaid;
    QuietScratch(t);
  }

  // Z0 at an address whose instruction no user breakpoint touches, or that has one already.
  lemma InsertKeeps(t: Debuggee, base: Mem, addr: int)
    requires Settled(t, base)
    requires FindUsed(t.bps, 0, 8, addr) < 8 || Clear(|t.mem|, NewSlot(t.mem, addr), t.User())
    ensures Settled(Insert(t, addr, false).0, base)
  {
    hide Overlaid, Clear, Poke, Peek, Trap;
    var i := FindFree(t.bps, 0, 8);
    if FindUsed(t.bps, 0, 8, addr) == 8 && i < 8 {
      PlantKeeps(t.mem, base, t.User(), i, addr, InstrLen(t.mem, addr));
      assert t.bps[i := NewSlot(t.mem, addr)][..8] == t.User()[i := NewSlot(t.mem, addr)];
    }
  }

  // z0 at any address.
  lemma RemoveKeeps(t: Debuggee, base: Mem, addr: int)
    requires Settled(t, base)
    ensures Settled(Remove(t, addr, false).0, base)
  {
    hide Overlaid, Poke;
    var i := FindUsed(t.bps, 0, 8, addr);
    if i < 8 {
      RestoreKeeps(t.mem, base, t.User(), i);
      assert t.bps[i := t.bps[i].(used := false)][..8] == t.User()[i := t.bps[i].(used := false)];
    }
  }

  // The step breakpoints come out again.
  lemma ScratchRemoved(t: Debuggee, mid: Mem)
    requires t.Valid() && Overlaid(t.mem, mid, t.Scratch())
    ensures RemoveStep(t).mem == mid && Quiet(RemoveStep(t)) && RemoveStep(t).User() == t.User()
  {
    hide Overlaid, Poke;
    var t1 := RestoredIfUsed(t, 8);
    RestoreScratch(t, mid, 8);
    RestoreScratch(t1, mid, 9);
    NothingPlanted(RemoveStep(t).mem, mid, RemoveStep(t).Scratch());
  }

  // That leaves the user's.
  lemma RemoveStepKeeps(t: Debuggee, base: Mem, mid: Mem)
    requires Layered(t, base, mid)
    ensures RemoveStep(t).mem == mid && Settled(RemoveStep(t), base) && RemoveStep(t).User() == t.User()
  {
    hide Overlaid, RemoveStep;
    ScratchRemoved(t, mid);
  }

  lemma RestoreScratch(t: Debuggee, mid: Mem, i: nat)
    requires t.Valid() && Overlaid(t.mem, mid, t.Scratch()) && 8 <= i < 10
    ensures var r := RestoredIfUsed(t, i);
      && Overlaid(r.mem, mid, r.Scratch()) && !r.bps[i].used && r.User() == t.User()
      && (forall j :: 0 <= j < NBP && j != i ==> r.bps[j] == t.bps[j])
  {
    hide Overlaid, Poke;
    if t.bps[i].used {
      RestoreKeeps(t.mem, mid, t.Scratch(), i - 8);
      assert t.bps[i := t.bps[i].(used := false)][8..] == t.Scratch()[i - 8 := t.bps[i].(used := false)];
    }
  }

  /* Successors that can be patched together: none, one, the same one twice, or two whose
     instructions do not overlap. */
  predicate Separate(m: Mem, targets: seq<int>)
    requires |m| > 0
  {
    |targets| <= 2 && (|targets| == 2 && targets[0] != targets[1] ==>
      Disjoint(|m|, NewSlot(m, targets[1]), NewSlot(m, targets[0])))
  }

  lemma PlantFirst(t: Debuggee, base: Mem, x: int)
    requires Settled(t, base)
    ensures var r := Insert(t, x, true).0;
      && Layered(r, base, t.mem) && r.bps == t.bps[8 := NewSlot(t.mem, x)]
        && r.mem == Poke(t.mem, x, Trap(InstrLen(t.mem, x)))
  {
    hide Overlaid, Poke, Peek, Trap;
    QuietScratch(t);
    assert FindFree(t.bps, 8, 10) == 8;
    NothingClear(|t.mem|, NewSlot(t.mem, x), t.Scratch());
    PlantKeeps(t.mem, t.mem, t.Scratch(), 0, x, InstrLen(t.mem, x));
    assert t.bps[8 := NewSlot(t.mem, x)][8..] == t.Scratch()[0 := NewSlot(t.mem, x)];
    assert t.bps[8 := NewSlot(t.mem, x)][..8] == t.User();
  }

  lemma NothingClear(n: nat, s: Slot, slots: seq<Slot>)
    requires n > 0 && forall i :: 0 <= i < |slots| ==> !slots[i].used
    ensures Clear(n, s, slots)
  {
  }

  lemma PlantSecond(t: Debuggee, base: Mem, mid: Mem, y: int)
    requires Layered(t, base, mid) && t.bps[8].used && !t.bps[9].used && t.bps[8].addr != y
    requires Disjoint(|t.mem|, NewSlot(t.mem, y), t.bps[8])
    ensures var r := Insert(t, y, true).0;
      && Layered(r, base, mid) && r.bps == t.bps[9 := NewSlot(t.mem, y)]
        && r.mem == Poke(t.mem, y, Trap(InstrLen(t.mem, y)))
  {
    hide Overlaid, Poke, Peek, Trap;
    assert FindFree(t.bps, 8, 10) == 9 by { assert FindFree(t.bps, 9, 10) == 9; }
    assert Clear(|t.mem|, NewSlot(t.mem, y), t.Scratch());
    PlantKeeps(t.mem, mid, t.Scratch(), 1, y, InstrLen(t.mem, y));
    assert t.bps[9 := NewSlot(t.mem, y)][8..] == t.Scratch()[1 := NewSlot(t.mem, y)];
    assert t.bps[9 := NewSlot(t.mem, y)][..8] == t.User();
  }

  // A trap planted elsewhere does not change the length seen here.
  lemma SameLength(m: Mem, x: int, y: int)
    requires |m| >= 4 && Disjoint(|m|, NewSlot(m, y), NewSlot(m, x))
    ensures InstrLen(Poke(m, x, Trap(InstrLen(m, x))), y) == InstrLen(m, y)
  {
    hide Peek, Trap;
    var b := y % |m|;
    OffsetOf(|m|, y, 0);
    assert Covers(|m|, NewSlot(m, y), b);
    assert !Covers(|m|, NewSlot(m, x), b);
  }

  lemma DisjointBySpan(n: nat, s: Slot, s': Slot, u: Slot)
    requires n > 0 && Disjoint(n, s, u) && s'.addr == s.addr && |s'.orig| == |s.orig| && s.used
    ensures Disjoint(n, s', u)
  {
    forall b | 0 <= b < n ensures !(Covers(n, s', b) && Covers(n, u, b)) {
      assert !(Covers(n, s, b) && Covers(n, u, b));
    }
  }

  // A slot with a trap for x.
  predicate HoldsTrap(s: Slot, x: int) { s.used && s.addr == x && (|s.orig| == 2 || |s.orig| == 4) }

  // cmd_step's traps form a layer over the user's, with one at every successor.
  lemma StepPlants(t: Debuggee, base: Mem, targets: seq<int>)
    requires Settled(t, base) && Separate(t.mem, targets)
    ensures Layered(PlantAll(t, targets), base, t.mem) && PlantAll(t, targets).User() == t.User()
    ensures forall i :: 0 <= i < |targets| ==>
      HoldsTrap(PlantAll(t, targets).Scratch()[0], targets[i])
        || HoldsTrap(PlantAll(t, targets).Scratch()[1], targets[i])
  {
    hide Overlaid, Poke, Peek, Trap, Disjoint;
    if |targets| == 0 {
      SettledLayers(t, base);
    } else {
      var x := targets[0];
      PlantFirst(t, base, x);
      var r := Insert(t, x, true).0;
      if |targets| == 1 {
        assert PlantAll(r, targets[1..]) == r;
      } else {
        var y := targets[1];
        assert targets[1..] == [y] && targets[1..][1..] == [];
        assert PlantAll(r, [y]) == PlantAll(Insert(r, y, true).0, []);
        if y == x {
          assert FindUsed(r.bps, 8, 10, y) == 8;
        } else {
          SameLength(t.mem, x, y);
          DisjointBySpan(|t.mem|, NewSlot(t.mem, y), NewSlot(r.mem, y), NewSlot(t.mem, x));
          PlantSecond(r, base, t.mem, y);
        }
      }
    }
  }

  datatype Op =
    | InsertBp(addr: int)
    | RemoveBp(addr: int)
    | Store(b: int, v: bv8)
    | StepTo(targets: seq<int>)
    | Reenter

  datatype State = State(t: Debuggee, stepping: bool)

  // The stub's handlers, and the stores of the program in between.
  function Apply(s: State, op: Op): (r: State)
    requires s.t.Valid()
    ensures r.t.Valid()
  {
    match op
    case InsertBp(addr) => s.(t := Insert(s.t, addr, false).0)
    case RemoveBp(addr) => s.(t := Remove(s.t, addr, false).0)
    case Store(b, v) => if 0 <= b < |s.t.mem| then s.(t := s.t.(mem := s.t.mem[b := v])) else s
    case StepTo(targets) => State(PlantAll(s.t, targets), true)
    case Reenter => if s.stepping then State(RemoveStep(s.t), false) else s
  }

  // What the same operation does to a program without a debugger.
  function Undebugged(base: Mem, op: Op): Mem
  {
    match op
    case Store(b, v) => if 0 <= b < |base| then base[b := v] else base
    case _ => base
  }

  /* The RSP loop runs only when no step is under way, new breakpoints do not overlap others,
     and the program does not store over a breakpoint. */
  predicate Allowed(s: State, op: Op)
    requires s.t.Valid()
  {
    match op
    case InsertBp(addr) => !s.stepping && (FindUsed(s.t.bps, 0, 8, addr) < 8
      || Clear(|s.t.mem|, NewSlot(s.t.mem, addr), s.t.User()))
    case RemoveBp(addr) => !s.stepping
    case Store(b, v) => 0 <= b < |s.t.mem| && Overlay.Bare(|s.t.mem|, s.t.User(), b)
      && Overlay.Bare(|s.t.mem|, s.t.Scratch(), b)
    case StepTo(targets) => !s.stepping && Separate(s.t.mem, targets)
    case Reenter => true
  }

  ghost predicate Inv(s: State, base: Mem)
  {
    if s.stepping then exists mid: Mem :: Layered(s.t, base, mid) else Settled(s.t, base)
  }

  lemma OpKeeps(s: State, base: Mem, op: Op)
    requires s.t.Valid() && Inv(s, base) && Allowed(s, op)
    ensures Inv(Apply(s, op), Undebugged(base, op))
  {
    hide Overlaid, Overlay.Bare, Clear, Separate, Insert, Remove, PlantAll, RemoveStep, Layered, Settled;
    match op
    case InsertBp(addr) => InsertKeeps(s.t, base, addr);
    case RemoveBp(addr) => RemoveKeeps(s.t, base, addr);
    case StepTo(targets) => StepPlants(s.t, base, targets);
    case Reenter =>
      if s.stepping {
        var mid: Mem :| Layered(s.t, base, mid);
        RemoveStepKeeps(s.t, base, mid);
      }
    case Store(b, v) =>
      if s.stepping {
        var mid: Mem :| Layered(s.t, base, mid);
        StoreLayered(s.t, base, mid, b, v);
      } else {
        StoreSettled(s.t, base, b, v);
      }
  }

  lemma StoreLayered(t: Debuggee, base: Mem, mid: Mem, b: int, v: bv8)
    requires Layered(t, base, mid) && 0 <= b < |t.mem| && Overlay.Bare(|t.mem|, t.User(), b)
    requires Overlay.Bare(|t.mem|, t.Scratch(), b)
    ensures |t.mem| == |mid| == |base| && Layered(t.(mem := t.mem[b := v]), base[b := v], mid[b := v])
  {
    hide Overlay.Bare, Overlaid;
    OverlaidApart(t.mem, mid, t.Scratch());
    OverlaidApart(mid, base, t.User());
    WriteKeeps(t.mem, mid, t.Scratch(), b, v);
    WriteKeeps(mid, base, t.User(), b, v);
  }

  lemma StoreSettled(t: Debuggee, base: Mem, b: int, v: bv8)
    requires Settled(t, base) && 0 <= b < |t.mem| && Overlay.Bare(|t.mem|, t.User(), b)
    ensures |t.mem| == |base| && Settled(t.(mem := t.mem[b := v]), base[b := v])
  {
    hide Overlay.Bare, Overlaid;
    OverlaidApart(t.mem, base, t.User());
    WriteKeeps(t.mem, base, t.User(), b, v);
  }

  function ApplyAll(s: State, ops: seq<Op>): (r: State)
    requires s.t.Valid()
    ensures r.t.Valid()
    decreases |ops|
  {
    if ops == [] then s else ApplyAll(Apply(s, ops[0]), ops[1..])
  }

  function UndebuggedAll(base: Mem, ops: seq<Op>): Mem
    decreases |ops|
  {
    if ops == [] then base else UndebuggedAll(Undebugged(base, ops[0]), ops[1..])
  }

  predicate AllAllowed(s: State, ops: seq<Op>)
    requires s.t.Valid()
    decreases |ops|
  {
    ops != [] ==> Allowed(s, ops[0]) && AllAllowed(Apply(s, ops[0]), ops[1..])
  }

  lemma {:induction false} RunKeeps(s: State, base: Mem, ops: seq<Op>)
    requires s.t.Valid() && Inv(s, base) && AllAllowed(s, ops)
    ensures Inv(ApplyAll(s, ops), UndebuggedAll(base, ops))
    decreases |ops|
  {
    hide Inv, Apply, Undebugged, Allowed;
    if ops != [] {
      OpKeeps(s, base, ops[0]);
      RunKeeps(Apply(s, ops[0]), Undebugged(base, ops[0]), ops[1..]);
    }
  }

  // Starting from an empty table over a program: after any run memory is what the program alone
  // would have left, overlaid with exactly the used user slots and, in the middle of a step,
  // with the scratch slots over those; and once all are removed, in whatever order, it is what the program alone would
  // have left.
  lemma RunIsOverlay(m: Mem, bps: seq<Slot>, ops: seq<Op>)
    requires |m| >= 4 && |bps| == NBP && (forall i :: 0 <= i < NBP ==> !bps[i].used)
    requires AllAllowed(State(Debuggee(m, bps), false), ops)
    ensures var s := ApplyAll(State(Debuggee(m, bps), false), ops);
      && (!s.stepping ==> Quiet(s.t) && Overlaid(s.t.mem, UndebuggedAll(m, ops), s.t.User()))
      && (s.stepping ==> exists mid: Mem :: Layered(s.t, UndebuggedAll(m, ops), mid))
      && (!s.stepping && (forall i :: 0 <= i < NBP ==> !s.t.bps[i].used) ==> s.t.mem == UndebuggedAll(m, ops))
  {
    var s0 := State(Debuggee(m, bps), false);
    assert Settled(s0.t, m);
    hide Overlaid, Apply, Undebugged, Allowed, Quiet;
    RunKeeps(s0, m, ops);
    var s := ApplyAll(s0, ops);
    if !s.stepping && forall i :: 0 <= i < NBP ==> !s.t.bps[i].used {
      NothingPlanted(s.t.mem, UndebuggedAll(m, ops), s.t.User());
    }
  }

  /* Two successors whose instructions overlap are planted in order and also removed in that
     order, so the second slot puts back bytes of the first trap. That is harmless exactly
     when the first trap's bytes there are those of the program. */
  predicate OverlapHarmless(m: Mem, x: int, y: int)
    requires |m| >= 4
  {
    var planted := Poke(m, x, Trap(InstrLen(m, x)));
    forall b :: 0 <= b < |m| && Covers(|m|, NewSlot(m, x), b) && Covers(|m|, NewSlot(planted, y), b) ==>
      planted[b] == m[b]
  }

  lemma PlantedPair(t: Debuggee, x: int, y: int)
    requires t.Valid() && Quiet(t) && x != y
    ensures var m1 := Poke(t.mem, x, Trap(InstrLen(t.mem, x)));
      PlantAll(t, [x, y]) == Debuggee(Poke(m1, y, Trap(InstrLen(m1, y))),
        t.bps[8 := NewSlot(t.mem, x)][9 := NewSlot(m1, y)])
  {
    hide Poke, Peek, Trap;
    var t1 := Insert(t, x, true).0;
    assert FindFree(t.bps, 8, 10) == 8;
    assert FindFree(t1.bps, 8, 10) == 9 by { assert FindFree(t1.bps, 9, 10) == 9; }
    assert [x, y][1..] == [y];
    assert PlantAll(t1, [y]) == PlantAll(Insert(t1, y, true).0, []);
  }

  lemma PairRestored(t: Debuggee, x: int, y: int)
    requires t.Valid() && Quiet(t) && x != y
    ensures (RemoveStep(PlantAll(t, [x, y])).mem == t.mem) <==> OverlapHarmless(t.mem, x, y)
  {
    hide Trap, Offset;
    PlantedPair(t, x, y);
    var m, n := t.mem, |t.mem|;
    var m1 := Poke(m, x, Trap(InstrLen(m, x)));
    var m2 := Poke(m1, y, Trap(InstrLen(m1, y)));
    var r := Poke(Poke(m2, x, Peek(m, x, InstrLen(m, x))), y, Peek(m1, y, InstrLen(m1, y)));
    assert RemoveStep(PlantAll(t, [x, y])).mem == r;
    forall b | 0 <= b < n
      ensures r[b] == if Covers(n, NewSlot(m1, y), b) then m1[b] else m[b]
      ensures !Covers(n, NewSlot(m, x), b) ==> m1[b] == m[b]
    {
      PokeAt(m, x, Trap(InstrLen(m, x)), b);
      PokeAt(m1, y, Trap(InstrLen(m1, y)), b);
      if Offset(n, x, b) < InstrLen(m, x) { PeekAt(m, x, InstrLen(m, x), b); }
      if Offset(n, y, b) < InstrLen(m1, y) { PeekAt(m1, y, InstrLen(m1, y), b); }
    }
    if r == m {
      forall b | 0 <= b < n && Covers(n, NewSlot(m, x), b) && Covers(n, NewSlot(m1, y), b) ensures m1[b] == m[b] {
        assert r[b] == m[b];
      }
    }
  }

  // A branch two bytes into its own four-byte fall-through: the byte at 2 is not restored.
  lemma OverlapCorrupts()
    ensures var m: Mem := [0x13, 0, 0x13, 0, 0x01, 0, 0x01, 0]; !OverlapHarmless(m, 0, 2)
  {
    var m: Mem := [0x13, 0, 0x13, 0, 0x01, 0, 0x01, 0];
    assert 0x13 as bv8 & 3 == 3 && 0x10 as bv8 & 3 == 0;
    var planted := Poke(m, 0, Trap(InstrLen(m, 0)));
    assert planted[2] == 0x10;
    assert Covers(8, NewSlot(m, 0), 2) && Covers(8, NewSlot(planted, 2), 2);
  }
}
