/** Memory with code patched over it: what a table of breakpoints has replaced, byte by byte. */
module Overlay {
  import opened Arith
  import opened Machine

  // A table entry of the stub. orig are the replaced bytes, two or four of them.
  datatype Slot = Slot(addr: int, orig: seq<bv8>, used: bool)

  // How far address b lies behind a, going round the end of an address space of n bytes.
  function Offset(n: nat, a: int, b: int): (i: int)
    requires n > 0
    ensures 0 <= i < n
  {
    (b - a) % n
  }

  function Peek(m: Mem, a: int, n: nat): (bytes: seq<bv8>)
    requires |m| > 0
    ensures |bytes| == n
  {
    seq(n, i requires 0 <= i < n => m[(a + i) % |m|])
  }

  function Poke(m: Mem, a: int, bytes: seq<bv8>): (r: Mem)
    requires |m| > 0
    ensures |r| == |m|
  {
    seq(|m|, b requires 0 <= b < |m| => if Offset(|m|, a, b) < |bytes| then bytes[Offset(|m|, a, b)] else m[b])
  }

  predicate Covers(n: nat, s: Slot, b: int)
    requires n > 0
  {
    s.used && Offset(n, s.addr, b) < |s.orig|
  }

  // c.ebreak and ebreak.
  function Trap(len: nat): (code: seq<bv8>)
    ensures |code| == if len == 2 then 2 else 4
  {
    if len == 2 then [0x02, 0x90] else [0x73, 0x00, 0x10, 0x00]
  }

  predicate Disjoint(n: nat, s: Slot, t: Slot)
    requires n > 0
  {
    forall b :: 0 <= b < n ==> !(Covers(n, s, b) && Covers(n, t, b))
  }

  // Slots hold two or four bytes and share none.
  predicate Apart(n: nat, slots: seq<Slot>)
    requires n > 0
  {
    && (forall i :: 0 <= i < |slots| && slots[i].used ==> |slots[i].orig| == 2 || |slots[i].orig| == 4)
    && (forall i, j :: 0 <= i < j < |slots| ==> Disjoint(n, slots[i], slots[j]))
  }

  predicate Bare(n: nat, slots: seq<Slot>, b: int)
    requires n > 0
  {
    forall i :: 0 <= i < |slots| ==> !Covers(n, slots[i], b)
  }

  // m is base with trap code over exactly the used slots, whose entries hold what is under it.
  predicate Overlaid(m: Mem, base: Mem, slots: seq<Slot>)
  {
    && |m| == |base| && |m| >= 4 && Apart(|m|, slots)
    && (forall b :: 0 <= b < |m| && Bare(|m|, slots, b) ==> m[b] == base[b])
    && (forall b, i :: 0 <= b < |m| && 0 <= i < |slots| && Covers(|m|, slots[i], b) ==>
          && m[b] == Trap(|slots[i].orig|)[Offset(|m|, slots[i].addr, b)]
          && base[b] == slots[i].orig[Offset(|m|, slots[i].addr, b)])
  }

  lemma OffsetBack(n: nat, a: int, b: int)
    requires n > 0 && 0 <= b < n
    ensures (a + Offset(n, a, b)) % n == b
  {
    var q := (b - a) / n;
    assert b - a == q * n + Offset(n, a, b);
    ModShift(b, -q, n);
    assert a + Offset(n, a, b) == b + (-q) * n;
    DivMod(b, n, 0, b);
  }

  lemma OffsetOf(n: nat, a: int, i: int)
    requires n > 0 && 0 <= i < n
    ensures 0 <= (a + i) % n < n && Offset(n, a, (a + i) % n) == i
  {
    var q := (a + i) / n;
    assert (a + i) % n - a == i + (-q) * n;
    ModShift(i, -q, n);
    DivMod(i, n, 0, i);
  }

  predicate Clear(n: nat, s: Slot, slots: seq<Slot>)
    requires n > 0
  {
    forall j :: 0 <= j < |slots| ==> Disjoint(n, s, slots[j])
  }

  lemma Swap(n: nat, s: Slot, t: Slot)
    requires n > 0 && Disjoint(n, s, t)
    ensures Disjoint(n, t, s)
  {
    forall b | 0 <= b < n ensures !(Covers(n, t, b) && Covers(n, s, b)) {
      assert !(Covers(n, s, b) && Covers(n, t, b));
    }
  }

  lemma AddApart(n: nat, slots: seq<Slot>, i: nat, s: Slot)
    requires n > 0 && Apart(n, slots) && i < |slots| && Clear(n, s, slots) && (|s.orig| == 2 || |s.orig| == 4)
    ensures Apart(n, slots[i := s])
  {
    var t := slots[i := s];
    forall j, k | 0 <= j < k < |t| ensures Disjoint(n, t[j], t[k]) {
      if k == i {
        Swap(n, s, slots[j]);
      } else if j != i {
        assert Disjoint(n, slots[j], slots[k]);
      }
    }
  }

  // Where the new slot lies nothing was patched.
  lemma UnderNew(m: Mem, base: Mem, slots: seq<Slot>, s: Slot, b: int)
    requires Overlaid(m, base, slots) && Clear(|m|, s, slots) && 0 <= b < |m| && Covers(|m|, s, b)
    ensures m[b] == base[b]
  {
    forall k | 0 <= k < |slots| ensures !Covers(|m|, slots[k], b) {
      assert Disjoint(|m|, s, slots[k]);
    }
    assert Bare(|m|, slots, b);
  }

  lemma OutsideNew(n: nat, s: Slot, slots: seq<Slot>, j: nat, b: int)
    requires n > 0 && Clear(n, s, slots) && j < |slots| && 0 <= b < n && Covers(n, slots[j], b)
    ensures !Covers(n, s, b)
  {
    assert Disjoint(n, s, slots[j]);
  }

  lemma StillBare(n: nat, slots: seq<Slot>, i: nat, s: Slot, b: int)
    requires n > 0 && i < |slots| && !slots[i].used && Bare(n, slots[i := s], b)
    ensures Bare(n, slots, b) && !Covers(n, s, b)
  {
    var t := slots[i := s];
    assert !Covers(n, t[i], b);
    forall j | 0 <= j < |slots| ensures !Covers(n, slots[j], b) {
      assert !Covers(n, t[j], b);
    }
  }

  lemma PokeAt(m: Mem, a: int, bytes: seq<bv8>, b: int)
    requires 0 <= b < |m|
    ensures Poke(m, a, bytes)[b] == if Offset(|m|, a, b) < |bytes| then bytes[Offset(|m|, a, b)] else m[b]
  {
  }

  lemma PeekAt(m: Mem, a: int, n: nat, b: int)
    requires 0 <= b < |m| && Offset(|m|, a, b) < n
    ensures Peek(m, a, n)[Offset(|m|, a, b)] == m[b]
  {
    OffsetBack(|m|, a, b);
  }

  // Planting a trap over bytes no slot of this layer covers.
  lemma PlantKeeps(m: Mem, base: Mem, slots: seq<Slot>, i: nat, a: int, len: nat)
    requires Overlaid(m, base, slots) && i < |slots| && !slots[i].used && (len == 2 || len == 4)
    requires Clear(|m|, Slot(a, Peek(m, a, len), true), slots)
    ensures Overlaid(Poke(m, a, Trap(len)), base, slots[i := Slot(a, Peek(m, a, len), true)])
  {
    hide Disjoint, Trap, Peek, Poke, Offset, Bare, Clear;
    var n, s := |m|, Slot(a, Peek(m, a, len), true);
    var r, t := Poke(m, a, Trap(len)), slots[i := s];
    assert Apart(n, t) by {
      OverlaidApart(m, base, slots);
      AddApart(n, slots, i, s);
    }
    forall b | 0 <= b < n && Bare(n, t, b) ensures r[b] == base[b] {
      StillBare(n, slots, i, s, b);
      PokeAt(m, a, Trap(len), b);
      BareByte(m, base, slots, b);
    }
    forall b, j | 0 <= b < n && 0 <= j < |t| && Covers(n, t[j], b)
      ensures r[b] == Trap(|t[j].orig|)[Offset(n, t[j].addr, b)] && base[b] == t[j].orig[Offset(n, t[j].addr, b)]
    {
      PokeAt(m, a, Trap(len), b);
      if j == i {
        PeekAt(m, a, len, b);
        UnderNew(m, base, slots, s, b);
      } else {
        OutsideNew(n, s, slots, j, b);
        CoveredByte(m, base, slots, j, b);
      }
    }
    assert Overlaid(r, base, t);
  }

  lemma OverlaidApart(m: Mem, base: Mem, slots: seq<Slot>)
    requires Overlaid(m, base, slots)
    ensures |m| == |base| && |m| >= 4 && Apart(|m|, slots)
  {
  }

  lemma BareByte(m: Mem, base: Mem, slots: seq<Slot>, b: int)
    requires Overlaid(m, base, slots) && 0 <= b < |m| && Bare(|m|, slots, b)
    ensures m[b] == base[b]
  {
  }

  lemma CoveredByte(m: Mem, base: Mem, slots: seq<Slot>, i: nat, b: int)
    requires Overlaid(m, base, slots) && 0 <= b < |m| && i < |slots| && Covers(|m|, slots[i], b)
    ensures var o := Offset(|m|, slots[i].addr, b);
      && o < |slots[i].orig| && o < |Trap(|slots[i].orig|)|
      && m[b] == Trap(|slots[i].orig|)[o] && base[b] == slots[i].orig[o]
  {
  }

  // Putting one slot's bytes back.
  lemma RestoreKeeps(m: Mem, base: Mem, slots: seq<Slot>, i: nat)
    requires Overlaid(m, base, slots) && i < |slots| && slots[i].used
    ensures Overlaid(Poke(m, slots[i].addr, slots[i].orig), base, slots[i := slots[i].(used := false)])
  {
    var n, s := |m|, slots[i];
    var r, t := Poke(m, s.addr, s.orig), slots[i := s.(used := false)];
    forall j, k | 0 <= j < k < |t| ensures Disjoint(n, t[j], t[k]) {
      assert Disjoint(n, slots[j], slots[k]);
    }
    forall b | 0 <= b < n && Bare(n, t, b) ensures r[b] == base[b] {
      if !Covers(n, s, b) {
        forall j | 0 <= j < |slots| ensures !Covers(n, slots[j], b) {
          assert !Covers(n, t[j], b);
        }
      }
    }
    forall b, j | 0 <= b < n && 0 <= j < |t| && Covers(n, t[j], b)
      ensures r[b] == Trap(|t[j].orig|)[Offset(n, t[j].addr, b)] && base[b] == t[j].orig[Offset(n, t[j].addr, b)]
    {
      if i < j {
        assert Disjoint(n, slots[i], slots[j]);
      } else {
        assert Disjoint(n, slots[j], slots[i]);
      }
      assert Covers(n, slots[j], b) && !Covers(n, s, b);
    }
  }

  // With no slot in use nothing is patched.
  lemma NothingPlanted(m: Mem, base: Mem, slots: seq<Slot>)
    requires Overlaid(m, base, slots) && forall i :: 0 <= i < |slots| ==> !slots[i].used
    ensures m == base
  {
    forall b | 0 <= b < |m| ensures m[b] == base[b] {
      assert Bare(|m|, slots, b);
    }
  }

  // The overlay is determined by what is under it and the table.
  lemma Determined(m: Mem, m': Mem, base: Mem, slots: seq<Slot>)
    requires Overlaid(m, base, slots) && Overlaid(m', base, slots)
    ensures m == m'
  {
    forall b | 0 <= b < |m| ensures m[b] == m'[b] {
      if i :| 0 <= i < |slots| && Covers(|m|, slots[i], b) {
        assert Covers(|m'|, slots[i], b);
      } else {
        assert Bare(|m|, slots, b) && Bare(|m'|, slots, b);
      }
    }
  }

  // A store to a byte that no slot covers goes to memory and to what is under it alike.
  lemma WriteKeeps(m: Mem, base: Mem, slots: seq<Slot>, b: int, v: bv8)
    requires Overlaid(m, base, slots) && 0 <= b < |m| && Bare(|m|, slots, b)
    ensures Overlaid(m[b := v], base[b := v], slots)
  {
  }
}
