/** The stub's word accesses on this core: it plants and restores a four-byte breakpoint with one
    32-bit access, which the byte lanes round down to a word. */
module LanePlanting {
  import opened Arith
  import opened Isa
  import opened Machine
  import opened Overlay
  import opened Bits
  import ByteLanes

  // ebreak.
  function Ebreak32(): Word
  {
    Pow32();
    0x0010_0073
  }

  // A 32-bit store and load at a, as StoreRoundsDown and LoadRoundsDown give them.
  function LaneStore(m: Mem, a: int, x: Word): (r: Mem)
    requires |m| > 0
    ensures |r| == |m|
  {
    Poke(m, ByteLanes.Floor(Full, a), ByteLanes.StoredBytes(Full, a, x))
  }

  function LaneLoad(m: Mem, a: int): Word
    requires |m| > 0
  {
    LoadValue(m, Full, false, ByteLanes.Floor(Full, a))
  }

  function Planted(m: Mem, a: int): (r: Mem)
    requires |m| > 0
    ensures |r| == |m|
  {
    LaneStore(m, a, Ebreak32())
  }

  // Where instructions can lie.
  predicate CodeAddress(m: Mem, a: int) { |m| % 4 == 0 && |m| >= 8 && 0 <= a < |m| && a % 2 == 0 }

  lemma WordBelow(m: Mem, a: int)
    requires CodeAddress(m, a)
    ensures 0 <= a - a % 4 && a - a % 4 + 3 < |m| && (a % 4 == 0 || a % 4 == 2)
  {
    ByteLanes.LaneOf(a, |m|);
  }

  lemma EbreakBytes()
    ensures ByteOf(Ebreak32(), 0) == 0x73 && ByteOf(Ebreak32(), 1) == 0
    ensures ByteOf(Ebreak32(), 2) == 0x10 && ByteOf(Ebreak32(), 3) == 0
  {
    hide ByteOf, WordValue, Pow2;
    EbreakValue();
    BytesOfWord(0x73, 0, 0x10, 0);
  }

  lemma EbreakValue()
    ensures Ebreak32() == WordValue(0x73, 0, 0x10, 0)
  {
    hide WordValue, Pow2;
    WordNumber(0x73, 0, 0x10, 0);
  }

  lemma LaneStoreInside(m: Mem, a: int, x: Word)
    requires CodeAddress(m, a)
    ensures var f := a - a % 4;
      0 <= f && f + 4 <= |m| && LaneStore(m, a, x) == m[..f] + ByteLanes.StoredBytes(Full, a, x) + m[f + 4..]
  {
    hide Poke, ByteOf, Pow2;
    WordBelow(m, a);
    ByteLanes.PokeInside(m, a - a % 4, ByteLanes.StoredBytes(Full, a, x));
  }

  // A four-byte breakpoint at an address that is not a multiple of four, byte by byte.
  lemma StraddlingTrap(m: Mem, a: int)
    requires CodeAddress(m, a) && a % 4 == 2 && 2 <= a <= |m| - 2
    ensures var t, next := Poke(m, a, Trap(4)), if a + 2 < |m| then a + 2 else 0;
      && t[a] == 0x73 && t[a + 1] == 0 && t[next] == 0x10 && t[next + 1] == 0
      && forall b :: 0 <= b < |m| && b != a && b != a + 1 && b != next && b != next + 1 ==> t[b] == m[b]
  {
    hide Offset, Poke;
    forall b | 0 <= b < |m|
      ensures Offset(|m|, a, b) == (if a <= b then b - a else b - a + |m|)
      ensures Poke(m, a, Trap(4))[b] == if Offset(|m|, a, b) < 4 then Trap(4)[Offset(|m|, a, b)] else m[b]
    {
      ByteLanes.OffsetInside(|m|, a, b);
      PokeAt(m, a, Trap(4), b);
    }
  }

  lemma GetAfter(m: Mem, a: int)
    requires CodeAddress(m, a) && a % 4 == 2 && 2 <= a <= |m| - 2
    ensures var next := if a + 2 < |m| then a + 2 else 0;
      Get(m, a + 2) == m[next] && Get(m, a + 3) == m[next + 1]
  {
    DivMod(a + 2, |m|, if a + 2 < |m| then 0 else 1, if a + 2 < |m| then a + 2 else 0);
    DivMod(a + 3, |m|, if a + 2 < |m| then 0 else 1, if a + 2 < |m| then a + 3 else 1);
  }

  // Planting a breakpoint is right at the multiples of four, and elsewhere only where the code
  // already reads as the halves of one.
  lemma PlantExact(m: Mem, a: int)
    requires CodeAddress(m, a)
    ensures Planted(m, a) == Poke(m, a, Trap(4))
      <==> a % 4 == 0 || (a >= 2 && m[a - 2] == 0x73 && m[a - 1] == 0 && Get(m, a + 2) == 0x10 && Get(m, a + 3) == 0)
  {
    hide Poke, ByteOf, Pow2, LaneStore, Get;
    EbreakBytes();
    LaneStoreInside(m, a, Ebreak32());
    WordBelow(m, a);
    if a % 4 == 0 {
      ByteLanes.PokeInside(m, a, Trap(4));
    } else {
      StraddlingTrap(m, a);
      GetAfter(m, a);
      var r, t := Planted(m, a), Poke(m, a, Trap(4));
      assert r[a - 2] == 0x73 && r[a - 1] == 0 && r[a] == 0x73 && r[a + 1] == 0;
      if m[a - 2] == 0x73 && m[a - 1] == 0 && Get(m, a + 2) == 0x10 && Get(m, a + 3) == 0 {
        forall b | 0 <= b < |m| ensures r[b] == t[b] {
        }
      }
    }
  }

  // A word read from memory and stored again by misaligned accesses.
  lemma StoredBack(m: Mem, a: int)
    requires CodeAddress(m, a)
    ensures var f := a - a % 4;
      && 0 <= f && f + 4 <= |m|
      && ByteLanes.StoredBytes(Full, a, LaneLoad(m, a))
      == if a % 4 == 0 then [m[f], m[f + 1], m[f + 2], m[f + 3]] else [m[f], m[f + 1], m[f], m[f + 1]]
  {
    hide ByteOf, Pow2, LaneLoad, WordValue;
    WordBelow(m, a);
    var f := a - a % 4;
    WordAtFloor(m, a);
    BytesOfWord(m[f], m[f + 1], m[f + 2], m[f + 3]);
  }

  // Putting back the word the stub read before planting: right at the multiples of four, and
  // elsewhere exactly when the two halves of the word are equal.
  lemma RestoreExact(m: Mem, a: int)
    requires CodeAddress(m, a)
    ensures LaneStore(Planted(m, a), a, LaneLoad(m, a)) == m
      <==> a % 4 == 0 || (a >= 2 && m[a - 2] == m[a] && m[a - 1] == m[a + 1])
  {
    hide *;
    PositiveSize(m, a);
    var f, t, bytes := a - a % 4, Planted(m, a), ByteLanes.StoredBytes(Full, a, LaneLoad(m, a));
    assert CodeAddress(t, a) && t == LaneStore(m, a, Ebreak32()) by { PlantedKeeps(m, a); }
    WordBelow(m, a);
    LaneStoreInside(m, a, Ebreak32());
    LaneStoreInside(t, a, LaneLoad(m, a));
    StoredBack(m, a);
    Splice(m, t, f, ByteLanes.StoredBytes(Full, a, Ebreak32()), bytes);
  }

  // Overwriting four bytes twice is the memory itself exactly when they end as they were.
  lemma Splice(m: Mem, t: Mem, f: nat, first: seq<bv8>, bytes: seq<bv8>)
    requires f + 4 <= |m| && |first| == |bytes| == 4 && t == m[..f] + first + m[f + 4..]
    ensures t[..f] + bytes + t[f + 4..] == m <==> bytes == [m[f], m[f + 1], m[f + 2], m[f + 3]]
  {
    var r := t[..f] + bytes + t[f + 4..];
    assert t[..f] == m[..f] && t[f + 4..] == m[f + 4..];
    assert r[f..f + 4] == bytes;
    if bytes == [m[f], m[f + 1], m[f + 2], m[f + 3]] {
      assert m[f..f + 4] == bytes;
      assert m == m[..f] + m[f..f + 4] + m[f + 4..];
    }
  }

  lemma PositiveSize(m: Mem, a: int)
    requires CodeAddress(m, a)
    ensures |m| > 0
  {
  }

  lemma PlantedKeeps(m: Mem, a: int)
    requires CodeAddress(m, a)
    ensures CodeAddress(Planted(m, a), a) && Planted(m, a) == LaneStore(m, a, Ebreak32())
  {
    hide LaneStore, Ebreak32;
  }

  lemma WordAtFloor(m: Mem, a: int)
    requires CodeAddress(m, a)
    ensures var f := a - a % 4;
      0 <= f && f + 3 < |m| && LaneLoad(m, a) == WordValue(m[f], m[f + 1], m[f + 2], m[f + 3])
  {
    hide Pow2, WordValue;
    WordBelow(m, a);
    var f := a - a % 4;
    DivMod(f, |m|, 0, f);
    DivMod(f + 1, |m|, 0, f + 1);
    DivMod(f + 2, |m|, 0, f + 2);
    DivMod(f + 3, |m|, 0, f + 3);
  }
}
