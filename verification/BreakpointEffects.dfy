/** What inserting and removing a breakpoint do: a trap at the address, the bytes back, the table's
    slots and the answers. */
module BreakpointEffects {
  import opened Arith
  import opened Isa
  import opened Machine
  import opened Overlay
  import opened Breakpoints
  import opened SingleStep

  // The slots of a kind: eight for the user, two for stepping.
  predicate InRange(i: int, scratch: bool) { if scratch then 8 <= i < 10 else 0 <= i < 8 }

  ghost predicate IsSet(bps: seq<Slot>, addr: int, scratch: bool)
    requires |bps| == 10
  {
    exists i :: InRange(i, scratch) && bps[i].used && bps[i].addr == addr
  }

  ghost predicate IsFull(bps: seq<Slot>, scratch: bool)
    requires |bps| == 10
  {
    forall i :: InRange(i, scratch) ==> bps[i].used
  }

  // Memory changes at a, by these bytes, and nowhere else.
  ghost predicate Changes(m: Mem, r: Mem, a: int, bytes: seq<bv8>)
    requires |m| >= 4
  {
    && |r| == |m|
    && (forall b :: 0 <= b < |m| ==>
          r[b] == if Offset(|m|, a, b) < |bytes| then bytes[Offset(|m|, a, b)] else m[b])
  }

  lemma PokeChanges(m: Mem, a: int, bytes: seq<bv8>)
    requires |m| >= 4
    ensures Changes(m, Poke(m, a, bytes), a, bytes)
  {
    hide Offset;
  }

  lemma ChangedByte(m: Mem, r: Mem, a: int, bytes: seq<bv8>, k: nat)
    requires 4 <= |m| && Changes(m, r, a, bytes) && k < |bytes| <= 4
    ensures Get(r, a + k) == bytes[k]
  {
    hide Offset;
    OffsetOf(|m|, a, k);
  }

  // The first slot found is in range, and is found when there is one.
  lemma SlotFound(bps: seq<Slot>, addr: int, scratch: bool)
    requires |bps| == 10
    ensures var i := FindUsed(bps, Start(scratch), End(scratch), addr);
      if IsSet(bps, addr, scratch) then InRange(i, scratch) && bps[i].used && bps[i].addr == addr else i == End(scratch)
  {
    var i := FindUsed(bps, Start(scratch), End(scratch), addr);
    if IsSet(bps, addr, scratch) {
      var j :| InRange(j, scratch) && bps[j].used && bps[j].addr == addr;
      assert Matches(bps[j], addr);
    } else if i < End(scratch) {
      assert InRange(i, scratch);
    }
  }

  lemma FreeFound(bps: seq<Slot>, scratch: bool)
    requires |bps| == 10
    ensures var i := FindFree(bps, Start(scratch), End(scratch));
      if IsFull(bps, scratch) then i == End(scratch) else InRange(i, scratch) && !bps[i].used
  {
    var i := FindFree(bps, Start(scratch), End(scratch));
    if IsFull(bps, scratch) {
      if i < End(scratch) { assert InRange(i, scratch); }
    } else {
      var j :| InRange(j, scratch) && !bps[j].used;
    }
  }

  // The length planted is that of the instruction at the address.
  lemma LengthOfInsn(m: Mem, a: int)
    requires |m| > 0 && IsEven(a)
    ensures InstrLen(m, a) == if LongAt(m, a) then 4 else 2
  {
    hide HalfBits;
    LowBits(Get(m, a), Get(m, a + 1));
  }

  lemma LowBits(b0: bv8, b1: bv8)
    ensures IsLong(HalfBits(b0, b1)) <==> b0 & 3 == 3
  {
  }

  // bp_insert: the answer, and the table and memory after it.
  lemma InsertExact(t: Debuggee, addr: int, scratch: bool)
    requires t.Valid()
    ensures var (r, rc), len := Insert(t, addr, scratch), InstrLen(t.mem, addr);
      if IsSet(t.bps, addr, scratch) then r == t && rc == 0
      else if IsFull(t.bps, scratch) then r == t && rc == -1
      else
        && rc == 0 && IsSet(r.bps, addr, scratch) && Changes(t.mem, r.mem, addr, Trap(len))
        && exists i ::
             && InRange(i, scratch) && !t.bps[i].used
             && r.bps == t.bps[i := Slot(addr, Peek(t.mem, addr, len), true)]
  {
    hide Peek, Poke, Trap, Changes, InstrLen;
    SlotFound(t.bps, addr, scratch);
    FreeFound(t.bps, scratch);
    var r, i, len := Insert(t, addr, scratch).0, FindFree(t.bps, Start(scratch), End(scratch)), InstrLen(t.mem, addr);
    if !IsSet(t.bps, addr, scratch) && !IsFull(t.bps, scratch) {
      PokeChanges(t.mem, addr, Trap(len));
      assert InRange(i, scratch) && r.bps[i].used && r.bps[i].addr == addr;
    }
  }

  // Whatever slot of the table it concerns, a breakpoint that answers 0 is one the core fetches.
  lemma InsertTraps(t: Debuggee, mid: Mem, addr: int, scratch: bool)
    requires t.Valid() && IsEven(addr) && |t.mem| % 2 == 0
    requires IsSet(t.bps, addr, scratch) ==> Overlaid(t.mem, mid, if scratch then t.Scratch() else t.User())
    requires Insert(t, addr, scratch).1 == 0
    ensures InsnAt(Insert(t, addr, scratch).0.mem, addr % |t.mem|) == Ebreak
  {
    hide Peek, Poke, Trap, Changes, InstrLen, Overlaid, InsnAt, Insert;
    InsertExact(t, addr, scratch);
    EvenRest(addr, |t.mem|);
    if IsSet(t.bps, addr, scratch) {
      var i :| InRange(i, scratch) && t.bps[i].used && t.bps[i].addr == addr;
      FetchesTrap(t.mem, mid, if scratch then t.Scratch() else t.User(), if scratch then i - 8 else i, addr % |t.mem|);
    } else {
      LengthIsTwoOrFour(t.mem, addr);
      TrapFetched(t.mem, Insert(t, addr, scratch).0.mem, addr, InstrLen(t.mem, addr));
    }
  }

  lemma LengthIsTwoOrFour(m: Mem, a: int)
    requires |m| > 0
    ensures InstrLen(m, a) == 2 || InstrLen(m, a) == 4
  {
  }

  lemma EvenRest(a: int, n: nat)
    requires IsEven(a) && n > 0 && n % 2 == 0
    ensures IsEven(a % n)
  {
    var q, r := a / n, a % n;
    assert a == q * n + r && n == 2 * (n / 2);
    assert q * n == 2 * (q * (n / 2));
    DivMod(r, 2, a / 2 - q * (n / 2), 0);
  }

  // Trap code in memory decodes to a breakpoint.
  lemma TrapFetched(m: Mem, r: Mem, a: int, len: nat)
    requires |m| >= 4 && (len == 2 || len == 4) && Changes(m, r, a, Trap(len)) && IsEven(a % |m|)
    ensures InsnAt(r, a % |m|) == Ebreak
  {
    hide Changes, HalfBits, DecodeC, Decode32, Join, IsLong, Get;
    TrapCodes();
    TrapByteAt(m, r, a, len, 0);
    TrapByteAt(m, r, a, len, 1);
    if len == 4 {
      TrapByteAt(m, r, a, len, 2);
      TrapByteAt(m, r, a, len, 3);
    }
  }

  lemma TrapByteAt(m: Mem, r: Mem, a: int, len: nat, k: nat)
    requires |m| >= 4 && (len == 2 || len == 4) && Changes(m, r, a, Trap(len)) && k < len
    ensures |r| == |m| && Get(r, a % |m| + k) == Trap(len)[k]
  {
    hide Trap;
    assert |r| == |m| && Get(r, a + k) == Trap(len)[k] by { ChangedByte(m, r, a, Trap(len), k); }
    hide Changes;
    SameResidue(a, a % |m|, k, |m|);
  }

  // No address twice among the used slots of a kind.
  ghost predicate Unique(bps: seq<Slot>, scratch: bool)
    requires |bps| == 10
  {
    forall i, j :: InRange(i, scratch) && InRange(j, scratch) && i < j && bps[i].used && bps[j].used ==>
      bps[i].addr != bps[j].addr
  }

  lemma EmptyUnique(bps: seq<Slot>, scratch: bool)
    requires |bps| == 10 && forall i :: 0 <= i < 10 ==> !bps[i].used
    ensures Unique(bps, scratch)
  {
  }

  lemma InsertKeepsUnique(t: Debuggee, addr: int, scratch: bool, kind: bool)
    requires t.Valid() && Unique(t.bps, kind)
    ensures Unique(Insert(t, addr, scratch).0.bps, kind)
  {
    hide Peek, Poke, Trap, Changes, InstrLen, Insert;
    InsertExact(t, addr, scratch);
    var r := Insert(t, addr, scratch).0;
    if !IsSet(t.bps, addr, scratch) && !IsFull(t.bps, scratch) {
      var k :| InRange(k, scratch) && !t.bps[k].used
               && r.bps == t.bps[k := Slot(addr, Peek(t.mem, addr, InstrLen(t.mem, addr)), true)];
      forall i, j | InRange(i, kind) && InRange(j, kind) && i < j && r.bps[i].used && r.bps[j].used
        ensures r.bps[i].addr != r.bps[j].addr
      {
        assert i != k && j != k ==> t.bps[i].used && t.bps[j].used;
        assert i == k ==> InRange(j, scratch) && t.bps[j].used;
        assert j == k ==> InRange(i, scratch) && t.bps[i].used;
      }
    }
  }

  lemma FreedIsUnset(bps: seq<Slot>, addr: int, scratch: bool, i: nat)
    requires |bps| == 10 && Unique(bps, scratch) && InRange(i, scratch) && bps[i].used && bps[i].addr == addr
    ensures !IsSet(bps[i := bps[i].(used := false)], addr, scratch)
  {
    var r := bps[i := bps[i].(used := false)];
    forall j | InRange(j, scratch) ensures !(r[j].used && r[j].addr == addr) {
      assert i < j && bps[j].used ==> bps[i].addr != bps[j].addr;
      assert j < i && bps[j].used ==> bps[j].addr != bps[i].addr;
    }
  }

  // bp_remove: the answer, and the table and memory after it.
  lemma RemoveExact(t: Debuggee, addr: int, scratch: bool)
    requires t.Valid()
    ensures var (r, rc) := Remove(t, addr, scratch);
      if !IsSet(t.bps, addr, scratch) then r == t && rc == -1
      else
        && rc == 0
        && (Unique(t.bps, scratch) ==> !IsSet(r.bps, addr, scratch))
        && exists i ::
             && InRange(i, scratch) && t.bps[i].used && t.bps[i].addr == addr
             && r.bps == t.bps[i := t.bps[i].(used := false)] && Changes(t.mem, r.mem, addr, t.bps[i].orig)
  {
    hide Poke, Changes;
    SlotFound(t.bps, addr, scratch);
    var r, i := Remove(t, addr, scratch).0, FindUsed(t.bps, Start(scratch), End(scratch), addr);
    if IsSet(t.bps, addr, scratch) {
      PokeChanges(t.mem, addr, t.bps[i].orig);
      if Unique(t.bps, scratch) { FreedIsUnset(t.bps, addr, scratch, i); }
    }
  }

  lemma RemoveKeepsUnique(t: Debuggee, addr: int, scratch: bool, kind: bool)
    requires t.Valid() && Unique(t.bps, kind)
    ensures Unique(Remove(t, addr, scratch).0.bps, kind)
  {
    hide Poke;
  }

  // A restored slot's bytes are in memory again.
  lemma RemovedBytes(t: Debuggee, addr: int, scratch: bool, k: nat)
    requires t.Valid() && IsSet(t.bps, addr, scratch)
    requires var i := FindUsed(t.bps, Start(scratch), End(scratch), addr); i < 10 && k < |t.bps[i].orig| <= 4
    ensures var i := FindUsed(t.bps, Start(scratch), End(scratch), addr);
      Get(Remove(t, addr, scratch).0.mem, addr + k) == t.bps[i].orig[k]
  {
    hide Poke, Changes;
    SlotFound(t.bps, addr, scratch);
    var r, i := Remove(t, addr, scratch).0, FindUsed(t.bps, Start(scratch), End(scratch), addr);
    PokeChanges(t.mem, addr, t.bps[i].orig);
    ChangedByte(t.mem, r.mem, addr, t.bps[i].orig, k);
  }

  // Putting back what was taken away.
  lemma ChangedBack(m: Mem, r: Mem, q: Mem, a: int, code: seq<bv8>)
    requires |m| >= 4 && Changes(m, r, a, code) && |r| >= 4 && Changes(r, q, a, Peek(m, a, |code|))
    ensures q == m
  {
    hide Offset, Peek;
    forall b | 0 <= b < |m| ensures q[b] == m[b] {
      if Offset(|m|, a, b) < |code| { PeekAt(m, a, |code|, b); }
    }
  }

  // Z0 and then z0 at an address that had no breakpoint leave memory and the slots in use as
  // they were.
  lemma InsertThenRemove(t: Debuggee, addr: int, scratch: bool)
    requires t.Valid() && !IsSet(t.bps, addr, scratch) && !IsFull(t.bps, scratch)
    ensures var q := Remove(Insert(t, addr, scratch).0, addr, scratch);
      && q.1 == 0 && q.0.mem == t.mem
      && forall i :: 0 <= i < 10 ==> q.0.bps[i] == t.bps[i] || (!q.0.bps[i].used && !t.bps[i].used)
  {
    hide Peek, Poke, Trap, Changes, InstrLen, Insert, Remove;
    var r, len := Insert(t, addr, scratch).0, InstrLen(t.mem, addr);
    var q := Remove(r, addr, scratch).0;
    InsertExact(t, addr, scratch);
    RemoveExact(r, addr, scratch);
    LengthIsTwoOrFour(t.mem, addr);
    TrapLength(len);
    var i :| InRange(i, scratch) && !t.bps[i].used && r.bps == t.bps[i := Slot(addr, Peek(t.mem, addr, len), true)];
    var j :| InRange(j, scratch) && r.bps[j].used && r.bps[j].addr == addr
             && q.bps == r.bps[j := r.bps[j].(used := false)] && Changes(r.mem, q.mem, addr, r.bps[j].orig);
    assert j == i;
    ChangedBack(t.mem, r.mem, q.mem, addr, Trap(len));
  }

  lemma TrapLength(len: nat)
    requires len == 2 || len == 4
    ensures |Trap(len)| == len
  {
  }
}
