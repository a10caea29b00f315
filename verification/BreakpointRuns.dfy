/** Which addresses carry a breakpoint after a run of the stub's handlers: those whose Z0 was
    answered with OK and that no z0 has taken out since. */
module BreakpointRuns {
  import opened Isa
  import opened Machine
  import opened Overlay
  import opened Breakpoints
  import opened PatchRuns
  import opened BreakpointEffects
  import SingleStep

  // The addresses, with the answers the handlers gave.
  function Armed(s: State, op: Op, armed: set<int>): set<int>
    requires s.t.Valid()
  {
    match op
    case InsertBp(addr) => if Insert(s.t, addr, false).1 == 0 then armed + {addr} else armed
    case RemoveBp(addr) => armed - {addr}
    case _ => armed
  }

  function ArmedAll(s: State, ops: seq<Op>, armed: set<int>): set<int>
    requires s.t.Valid()
    decreases |ops|
  {
    if ops == [] then armed else ArmedAll(Apply(s, ops[0]), ops[1..], Armed(s, ops[0], armed))
  }

  ghost predicate Agrees(t: Debuggee, armed: set<int>)
    requires t.Valid()
  {
    Unique(t.bps, false) && forall a :: a in armed <==> IsSet(t.bps, a, false)
  }

  lemma InsertArms(t: Debuggee, x: int, a: int)
    requires t.Valid()
    ensures var (r, rc) := Insert(t, x, false);
      IsSet(r.bps, a, false) <==> IsSet(t.bps, a, false) || (a == x && rc == 0)
  {
    hide Peek, Insert, Changes, Trap, InstrLen;
    InsertExact(t, x, false);
    var r := Insert(t, x, false).0;
    if !IsSet(t.bps, x, false) && !IsFull(t.bps, false) {
      var k :| InRange(k, false) && !t.bps[k].used
               && r.bps == t.bps[k := Slot(x, Peek(t.mem, x, InstrLen(t.mem, x)), true)];
      if IsSet(t.bps, a, false) {
        var i :| InRange(i, false) && t.bps[i].used && t.bps[i].addr == a;
        assert r.bps[i] == t.bps[i];
      }
      if IsSet(r.bps, a, false) {
        var i :| InRange(i, false) && r.bps[i].used && r.bps[i].addr == a;
        assert i != k ==> r.bps[i] == t.bps[i];
      }
    }
  }

  lemma RemoveDisarms(t: Debuggee, x: int, a: int)
    requires t.Valid() && Unique(t.bps, false)
    ensures IsSet(Remove(t, x, false).0.bps, a, false) <==> IsSet(t.bps, a, false) && a != x
  {
    hide Remove, Changes, Unique;
    RemoveExact(t, x, false);
    var r := Remove(t, x, false).0;
    if IsSet(t.bps, x, false) {
      var k :| InRange(k, false) && t.bps[k].used && t.bps[k].addr == x
               && r.bps == t.bps[k := t.bps[k].(used := false)];
      if IsSet(t.bps, a, false) && a != x {
        var i :| InRange(i, false) && t.bps[i].used && t.bps[i].addr == a;
        assert r.bps[i] == t.bps[i];
      }
      if IsSet(r.bps, a, false) {
        var i :| InRange(i, false) && r.bps[i].used && r.bps[i].addr == a;
        assert r.bps[i] == t.bps[i];
      }
    }
  }

  // Stepping touches the scratch slots only.
  lemma {:induction false} PlantAllKeepsUser(t: Debuggee, targets: seq<int>)
    requires t.Valid()
    ensures PlantAll(t, targets).bps[..8] == t.bps[..8]
    decreases |targets|
  {
    hide Poke, Peek, Trap;
    if targets != [] { PlantAllKeepsUser(Insert(t, targets[0], true).0, targets[1..]); }
  }

  lemma RemoveStepKeepsUser(t: Debuggee)
    requires t.Valid()
    ensures RemoveStep(t).bps[..8] == t.bps[..8]
  {
    hide Poke;
  }

  lemma SameUser(t: Debuggee, r: Debuggee, armed: set<int>)
    requires t.Valid() && r.Valid() && r.bps[..8] == t.bps[..8] && Agrees(t, armed)
    ensures Agrees(r, armed)
  {
    forall i | 0 <= i < 8 ensures r.bps[i] == t.bps[i] {
      assert r.bps[..8][i] == t.bps[..8][i];
    }
    forall a ensures IsSet(r.bps, a, false) <==> IsSet(t.bps, a, false) {
      if IsSet(r.bps, a, false) {
        var i :| InRange(i, false) && r.bps[i].used && r.bps[i].addr == a;
        assert t.bps[i].used;
      }
      if IsSet(t.bps, a, false) {
        var i :| InRange(i, false) && t.bps[i].used && t.bps[i].addr == a;
        assert r.bps[i].used;
      }
    }
  }

  lemma OpAgrees(s: State, op: Op, armed: set<int>)
    requires s.t.Valid() && Agrees(s.t, armed)
    ensures Agrees(Apply(s, op).t, Armed(s, op, armed))
  {
    hide Insert, Remove, PlantAll, RemoveStep, Unique, IsSet;
    match op
    case InsertBp(addr) =>
      InsertKeepsUnique(s.t, addr, false, false);
      forall a ensures a in Armed(s, op, armed) <==> IsSet(Apply(s, op).t.bps, a, false) {
        InsertArms(s.t, addr, a);
      }
    case RemoveBp(addr) =>
      RemoveKeepsUnique(s.t, addr, false, false);
      forall a ensures a in Armed(s, op, armed) <==> IsSet(Apply(s, op).t.bps, a, false) {
        RemoveDisarms(s.t, addr, a);
      }
    case StepTo(targets) =>
      PlantAllKeepsUser(s.t, targets);
      SameUser(s.t, PlantAll(s.t, targets), armed);
    case Reenter =>
      RemoveStepKeepsUser(s.t);
      SameUser(s.t, RemoveStep(s.t), armed);
    case Store(b, v) =>
  }

  lemma {:induction false} OpsAgree(s: State, ops: seq<Op>, armed: set<int>)
    requires s.t.Valid() && Agrees(s.t, armed)
    ensures Agrees(ApplyAll(s, ops).t, ArmedAll(s, ops, armed))
    decreases |ops|
  {
    hide Agrees, Apply, Armed;
    if ops != [] {
      OpAgrees(s, ops[0], armed);
      OpsAgree(Apply(s, ops[0]), ops[1..], Armed(s, ops[0], armed));
    }
  }

  // From an empty table on: after any run exactly those addresses are set, and when no step is
  // under way the core fetches a breakpoint at each of them.
  lemma RunArms(m: Mem, bps: seq<Slot>, ops: seq<Op>, a: int)
    requires |m| >= 4 && |m| % 2 == 0 && |bps| == NBP && (forall i :: 0 <= i < NBP ==> !bps[i].used)
    requires AllAllowed(State(Debuggee(m, bps), false), ops)
    ensures var s0 := State(Debuggee(m, bps), false);
      var s, armed := ApplyAll(s0, ops), ArmedAll(s0, ops, {});
      && (IsSet(s.t.bps, a, false) <==> a in armed)
      && (a in armed && SingleStep.IsEven(a) && !s.stepping ==>
          |s.t.mem| > 0 && InsnAt(s.t.mem, a % |s.t.mem|) == Ebreak)
  {
    var s0 := State(Debuggee(m, bps), false);
    hide Overlaid, Apply, Undebugged, Allowed, Quiet, InsnAt, ArmedAll, ApplyAll, AllAllowed, Unique;
    assert Agrees(s0.t, {}) by { EmptyUnique(bps, false); }
    OpsAgree(s0, ops, {});
    RunIsOverlay(m, bps, ops);
    var s := ApplyAll(s0, ops);
    if IsSet(s.t.bps, a, false) && SingleStep.IsEven(a) && !s.stepping {
      var i :| InRange(i, false) && s.t.bps[i].used && s.t.bps[i].addr == a;
      SameSize(s0, ops);
      EvenRest(a, |m|);
      SingleStep.FetchesTrap(s.t.mem, UndebuggedAll(m, ops), s.t.User(), i, a % |m|);
    }
  }

  lemma {:induction false} SameSize(s: State, ops: seq<Op>)
    requires s.t.Valid()
    ensures |ApplyAll(s, ops).t.mem| == |s.t.mem|
    decreases |ops|
  {
    hide Apply;
    if ops != [] {
      SameSizeOnce(s, ops[0]);
      SameSize(Apply(s, ops[0]), ops[1..]);
    }
  }

  lemma SameSizeOnce(s: State, op: Op)
    requires s.t.Valid()
    ensures |Apply(s, op).t.mem| == |s.t.mem|
  {
    hide Poke, Peek, Trap;
    if op.StepTo? { PlantKeepsSize(s.t, op.targets); }
  }

  lemma {:induction false} PlantKeepsSize(t: Debuggee, targets: seq<int>)
    requires t.Valid()
    ensures |PlantAll(t, targets).mem| == |t.mem|
    decreases |targets|
  {
    hide Poke, Peek, Trap;
    if targets != [] { PlantKeepsSize(Insert(t, targets[0], true).0, targets[1..]); }
  }

  // A step leaves the program to run into a breakpoint at each of its targets.
  lemma StepArms(s: State, base: Mem, targets: seq<int>, i: nat)
    requires s.t.Valid() && Settled(s.t, base) && Separate(s.t.mem, targets) && i < |targets|
    requires SingleStep.IsEven(targets[i]) && |s.t.mem| % 2 == 0
    ensures var r := Apply(s, StepTo(targets));
      r.stepping && |r.t.mem| == |s.t.mem| && InsnAt(r.t.mem, targets[i] % |s.t.mem|) == Ebreak
  {
    hide Overlaid, Separate, Insert, PlantAll, InsnAt, Quiet;
    var r := Apply(s, StepTo(targets));
    StepPlants(s.t, base, targets);
    var slots := r.t.Scratch();
    var j := if HoldsTrap(slots[0], targets[i]) then 0 else 1;
    EvenRest(targets[i], |s.t.mem|);
    PlantKeepsSize(s.t, targets);
    SingleStep.FetchesTrap(r.t.mem, s.t.mem, slots, j, targets[i] % |s.t.mem|);
  }
}
