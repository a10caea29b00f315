/** The stub's breakpoint table: eight user slots and two for single-stepping, each holding the
    instruction it replaced. */
module Breakpoints {
  import opened Machine
  import opened Overlay

  const NBP := 10
  const NBP_STEP := 2

  // Debuggee memory and the table.
  datatype Debuggee = Debuggee(mem: Mem, bps: seq<Slot>)
  {
    predicate Valid() { |mem| >= 4 && |bps| == NBP }

    function User(): seq<Slot>
      requires Valid()
    {
      bps[..NBP - NBP_STEP]
    }

    function Scratch(): seq<Slot>
      requires Valid()
    {
      bps[NBP - NBP_STEP..]
    }
  }

  function Start(scratch: bool): nat { if scratch then NBP - NBP_STEP else 0 }
  function End(scratch: bool): nat { if scratch then NBP else NBP - NBP_STEP }

  // The length the first byte of an instruction announces.
  function InstrLen(m: Mem, a: int): nat
    requires |m| > 0
  {
    if m[a % |m|] & 3 == 3 then 4 else 2
  }

  predicate Matches(s: Slot, addr: int) { s.used && s.addr == addr }

  // The first slot from i on that is in use for addr; end when there is none.
  function FindUsed(bps: seq<Slot>, i: nat, end: nat, addr: int): (k: nat)
    requires i <= end <= |bps|
    ensures i <= k <= end && (k < end ==> Matches(bps[k], addr))
    ensures forall j :: i <= j < k ==> !Matches(bps[j], addr)
    decreases end - i
  {
    if i == end || Matches(bps[i], addr) then i else FindUsed(bps, i + 1, end, addr)
  }

  function FindFree(bps: seq<Slot>, i: nat, end: nat): (k: nat)
    requires i <= end <= |bps|
    ensures i <= k <= end && (k < end ==> !bps[k].used)
    ensures forall j :: i <= j < k ==> bps[j].used
    decreases end - i
  {
    if i == end || !bps[i].used then i else FindFree(bps, i + 1, end)
  }

  function NewSlot(m: Mem, addr: int): Slot
    requires |m| > 0
  {
    Slot(addr, Peek(m, addr, InstrLen(m, addr)), true)
  }

  // bp_insert: already set, set now, or no slot left.
  function Insert(t: Debuggee, addr: int, scratch: bool): (r: (Debuggee, int))
    requires t.Valid()
    ensures r.0.Valid()
  {
    var i := FindFree(t.bps, Start(scratch), End(scratch));
    if FindUsed(t.bps, Start(scratch), End(scratch), addr) < End(scratch) then (t, 0)
    else if i < End(scratch) then
      (Debuggee(Poke(t.mem, addr, Trap(InstrLen(t.mem, addr))), t.bps[i := NewSlot(t.mem, addr)]), 0)
    else (t, -1)
  }

  // One slot's bytes back in place.
  function Restored(t: Debuggee, i: nat): (r: Debuggee)
    requires t.Valid() && i < NBP
    ensures r.Valid()
  {
    Debuggee(Poke(t.mem, t.bps[i].addr, t.bps[i].orig), t.bps[i := t.bps[i].(used := false)])
  }

  function Remove(t: Debuggee, addr: int, scratch: bool): (r: (Debuggee, int))
    requires t.Valid()
    ensures r.0.Valid()
  {
    var i := FindUsed(t.bps, Start(scratch), End(scratch), addr);
    if i < End(scratch) then (Restored(t, i), 0) else (t, -1)
  }

  function RestoredIfUsed(t: Debuggee, i: nat): (r: Debuggee)
    requires t.Valid() && i < NBP
    ensures r.Valid()
  {
    if t.bps[i].used then Restored(t, i) else t
  }

  function RemoveStep(t: Debuggee): (r: Debuggee)
    requires t.Valid()
    ensures r.Valid()
  {
    RestoredIfUsed(RestoredIfUsed(t, NBP - NBP_STEP), NBP - 1)
  }

  // What cmd_step plants.
  function PlantAll(t: Debuggee, targets: seq<int>): (r: Debuggee)
    requires t.Valid()
    ensures r.Valid()
    decreases |targets|
  {
    if targets == [] then t else PlantAll(Insert(t, targets[0], true).0, targets[1..])
  }

  /** The table as the source keeps it, with the target's memory beside it. */
  class Table {
    var mem: Mem
    const bps: array<Slot>

    predicate Valid()
      reads this, bps
    {
      |mem| >= 4 && bps.Length == NBP
    }

    function View(): Debuggee
      reads this, bps
    {
      Debuggee(mem, bps[..])
    }

    constructor (mem: Mem)
      requires |mem| >= 4
      ensures Valid() && fresh(bps) && this.mem == mem
      ensures forall i :: 0 <= i < NBP ==> !bps[i].used
    {
      this.mem := mem;
      bps := new Slot[NBP](i => Slot(0, [], false));
    }

    method BpInsert(addr: int, scratch: bool) returns (rc: int)
      requires Valid()
      modifies this, bps
      ensures Valid() && (View(), rc) == Insert(old(View()), addr, scratch)
    {
      hide Poke, Peek, Trap;
      var start, end := Start(scratch), End(scratch);
      var i := start;
      while i < end
        invariant start <= i <= end
        invariant FindUsed(bps[..], i, end, addr) == FindUsed(bps[..], start, end, addr)
      {
        if bps[i].used && bps[i].addr == addr { return 0; }
        i := i + 1;
      }
      var len := InstrLen(mem, addr);
      i := start;
      while i < end
        invariant start <= i <= end
        invariant FindFree(bps[..], i, end) == FindFree(bps[..], start, end)
      {
        if !bps[i].used {
          bps[i] := Slot(addr, Peek(mem, addr, len), true);
          mem := Poke(mem, addr, Trap(len));
          return 0;
        }
        i := i + 1;
      }
      rc := -1;
    }

    method BpRemove(addr: int, scratch: bool) returns (rc: int)
      requires Valid()
      modifies this, bps
      ensures Valid() && (View(), rc) == Remove(old(View()), addr, scratch)
    {
      hide Poke;
      var start, end := Start(scratch), End(scratch);
      var i := start;
      while i < end
        invariant start <= i <= end
        invariant FindUsed(bps[..], i, end, addr) == FindUsed(bps[..], start, end, addr)
      {
        if bps[i].used && bps[i].addr == addr {
          mem := Poke(mem, addr, bps[i].orig);
          bps[i] := bps[i].(used := false);
          return 0;
        }
        i := i + 1;
      }
      rc := -1;
    }

    method RemoveStepBps()
      requires Valid()
      modifies this, bps
      ensures Valid() && View() == RemoveStep(old(View()))
    {
      hide Poke;
      var i := NBP - NBP_STEP;
      while i < NBP
        invariant NBP - NBP_STEP <= i <= NBP && Valid()
        invariant View() == (if i == 8 then old(View()) else if i == 9 then RestoredIfUsed(old(View()), 8)
                             else RemoveStep(old(View())))
      {
        if bps[i].used {
          mem := Poke(mem, bps[i].addr, bps[i].orig);
          bps[i] := bps[i].(used := false);
        }
        i := i + 1;
      }
    }

    method PlantTargets(targets: seq<int>)
      requires Valid()
      modifies this, bps
      ensures Valid() && View() == PlantAll(old(View()), targets)
    {
      hide Insert;
      var i := 0;
      while i < |targets|
        invariant 0 <= i <= |targets| && Valid()
        invariant PlantAll(View(), targets[i..]) == PlantAll(old(View()), targets)
      {
        var rc := BpInsert(targets[i], true);
        i := i + 1;
      }
    }
  }
}
