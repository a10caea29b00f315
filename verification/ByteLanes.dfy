/** Loads and stores: the core moves aligned words through four byte lanes, the ISA moves bytes. */
module ByteLanes {
  import opened Arith
  import opened Isa
  import opened Machine
  import opened Core
  import opened Bus
  import opened Overlay
  import opened Signals

  // An address as a word index and a lane.
  lemma LaneOf(a: int, n: int)
    requires 0 <= a < n && n % 4 == 0
    ensures var w, k := a / 4, a % 4;
      && a == 4 * w + k && 0 <= w && 4 * w + 3 < n && 0 <= k < 4
      && (a % 2 == 1) == (k == 1 || k == 3) && (a / 2 % 2 == 1) == (k >= 2)
  {
    var w, k := a / 4, a % 4;
    var high, odd := if k >= 2 then 1 else 0, if k == 1 || k == 3 then 1 else 0;
    assert a == 4 * w + 2 * high + odd;
    DivMod(a, 2, 2 * w + high, odd);
    DivMod(2 * w + high, 2, w, high);
  }

  // An address rounded down to a multiple of the access width.
  function Floor(width: Width, a: int): int
  {
    match width
    case Byte => a
    case Half => a - a % 2
    case Full => a - a % 4
  }

  // What the load multiplexers pick out of a word is what lies at the address, rounded down to
  // the width: a misaligned load is neither split nor trapped.
  lemma LoadRoundsDown(p: Params, c: Core, x: Inputs, m: Mem, insn: Insn)
    requires ValidCore(p, c) && |m| == p.size && Encodes(c.front.instr, insn) && insn.Load?
    requires var w := LoadStoreAddr(p, c) / 4; 4 * w + 3 < |m| && x.rdata == WordAt(m, w)
    ensures |m| > 0
    ensures LoadData(p, c, x) == LoadValue(m, insn.width, insn.unsigned, Floor(insn.width, LoadStoreAddr(p, c)))
  {
    hide Pow2, Rd, Rs1, Rs2, ImmI, Funct3, LoadStoreAddr, HalfValue, WordValue, ExtendValue, Get;
    FunctBits(c.front.instr);
    FunctRange(c.front.instr);
    Fits(p);
    var a := LoadStoreAddr(p, c);
    LaneOf(a, |m|);
    var f := Floor(insn.width, a);
    GetDirect(m, f);
    GetDirect(m, f + 1);
    GetDirect(m, f + 2);
    GetDirect(m, f + 3);
  }

  lemma LoadCorrect(p: Params, c: Core, x: Inputs, m: Mem, insn: Insn)
    requires ValidCore(p, c) && |m| == p.size && Encodes(c.front.instr, insn) && insn.Load?
    requires Aligned(insn.width, LoadStoreAddr(p, c))
    requires var w := LoadStoreAddr(p, c) / 4; 4 * w + 3 < |m| && x.rdata == WordAt(m, w)
    ensures |m| > 0 && LoadData(p, c, x) == LoadValue(m, insn.width, insn.unsigned, LoadStoreAddr(p, c))
  {
    hide Pow2, Encodes, LoadStoreAddr, LoadData, LoadValue, WordAt;
    LoadRoundsDown(p, c, x, m, insn);
  }

  function Lane(d: Lanes, k: nat): bv8
    requires k < 4
  {
    if k == 0 then d.b0 else if k == 1 then d.b1 else if k == 2 then d.b2 else d.b3
  }

  // Writing one, two or four lanes of word w under a mask.
  lemma PutByte(m: Mem, w: int, k: nat, d: Lanes, x: Word)
    requires 0 <= w && 4 * w + 3 < |m| && k < 4 && Lane(d, k) == ByteOf(x, 0)
    ensures PutLanes(m, w, k == 0, k == 1, k == 2, k == 3, d) == StoreValue(m, Byte, 4 * w + k, x)
  {
    hide Pow2, ByteOf;
    ModOnce(4 * w + k, |m|);
  }

  lemma PutHalf(m: Mem, w: int, high: bool, d: Lanes, x: Word)
    requires 0 <= w && 4 * w + 3 < |m|
    requires var k := if high then 2 else 0; Lane(d, k) == ByteOf(x, 0) && Lane(d, k + 1) == ByteOf(x, 1)
    ensures PutLanes(m, w, !high, !high, high, high, d) == StoreValue(m, Half, 4 * w + if high then 2 else 0, x)
  {
    hide Pow2, ByteOf;
    var a := 4 * w + if high then 2 else 0;
    ModOnce(a, |m|);
    ModOnce(a + 1, |m|);
  }

  lemma PutFull(m: Mem, w: int, x: Word)
    requires 0 <= w && 4 * w + 3 < |m|
    ensures PutLanes(m, w, true, true, true, true, Lanes(ByteOf(x, 0), ByteOf(x, 1), ByteOf(x, 2), ByteOf(x, 3)))
         == StoreValue(m, Full, 4 * w, x)
  {
    hide Pow2, ByteOf;
    ModOnce(4 * w, |m|);
    ModOnce(4 * w + 1, |m|);
    ModOnce(4 * w + 2, |m|);
    ModOnce(4 * w + 3, |m|);
  }

  // A store writes exactly the bytes the ISA writes.
  lemma StoreCorrect(p: Params, c: Core, m: Mem, insn: Insn)
    requires ValidCore(p, c) && |m| == p.size && Encodes(c.front.instr, insn) && insn.Store?
    requires c.front.state.ExecuteInstr?
    requires Aligned(insn.width, LoadStoreAddr(p, c))
    ensures |m| > 0 && Written(p, c, m) == StoreValue(m, insn.width, LoadStoreAddr(p, c), c.front.rs2)
  {
    hide Pow2, Rd, Rs1, Rs2, ImmS, Funct3, LoadStoreAddr, ByteOf, PutLanes, StoreValue;
    FunctBits(c.front.instr);
    OpcodeBits(c.front.instr);
    Fits(p);
    var a := LoadStoreAddr(p, c);
    LaneOf(a, |m|);
    match insn.width
    case Byte => PutByte(m, a / 4, a % 4, MemWdata(p, c), c.front.rs2);
    case Half => PutHalf(m, a / 4, a % 4 == 2, MemWdata(p, c), c.front.rs2);
    case Full => PutFull(m, a / 4, c.front.rs2);
  }

  // The bytes a store puts on the lanes it writes, misaligned or not: the lanes of a misaligned
  // store carry other bytes than those of its address.
  function StoredBytes(width: Width, a: int, x: Word): seq<bv8>
  {
    var b0, b1, b2, b3 := ByteOf(x, 0), ByteOf(x, 1), ByteOf(x, 2), ByteOf(x, 3);
    match width
    case Byte => [b0]
    case Half => if a % 2 == 1 then [b0, b0] else [b0, b1]
    case Full =>
      if a % 4 == 0 then [b0, b1, b2, b3] else if a % 4 == 1 then [b0, b0, b2, b0]
      else if a % 4 == 2 then [b0, b1, b0, b1] else [b0, b0, b0, b0]
  }

  lemma OffsetInside(n: nat, a: int, b: int)
    requires 0 <= a < n && 0 <= b < n
    ensures Offset(n, a, b) == if a <= b then b - a else b - a + n
  {
    if a <= b {
      DivMod(b - a, n, 0, b - a);
    } else {
      DivMod(b - a, n, -1, b - a + n);
    }
  }

  lemma PokeInside(m: Mem, a: int, bytes: seq<bv8>)
    requires 0 <= a < a + |bytes| <= |m|
    ensures Poke(m, a, bytes) == m[..a] + bytes + m[a + |bytes|..]
  {
    hide Offset;
    var r := m[..a] + bytes + m[a + |bytes|..];
    forall b | 0 <= b < |m| ensures Poke(m, a, bytes)[b] == r[b] {
      OffsetInside(|m|, a, b);
    }
  }

  // One, two or four lanes written are that many bytes in place.
  lemma PokeByte(m: Mem, w: int, k: nat, d: Lanes)
    requires 0 <= w && 4 * w + 3 < |m| && k < 4
    ensures PutLanes(m, w, k == 0, k == 1, k == 2, k == 3, d) == Poke(m, 4 * w + k, [Lane(d, k)])
  {
    hide Poke;
    PokeInside(m, 4 * w + k, [Lane(d, k)]);
  }

  lemma PokeHalf(m: Mem, w: int, high: bool, d: Lanes)
    requires 0 <= w && 4 * w + 3 < |m|
    ensures var k := if high then 2 else 0;
      PutLanes(m, w, !high, !high, high, high, d) == Poke(m, 4 * w + k, [Lane(d, k), Lane(d, k + 1)])
  {
    hide Poke;
    var k := if high then 2 else 0;
    PokeInside(m, 4 * w + k, [Lane(d, k), Lane(d, k + 1)]);
  }

  lemma PokeFull(m: Mem, w: int, d: Lanes)
    requires 0 <= w && 4 * w + 3 < |m|
    ensures PutLanes(m, w, true, true, true, true, d) == Poke(m, 4 * w, [d.b0, d.b1, d.b2, d.b3])
  {
    hide Poke;
    PokeInside(m, 4 * w, [d.b0, d.b1, d.b2, d.b3]);
  }

  // Any store, at any address, writes those bytes at its address rounded down to the width.
  lemma StoreRoundsDown(p: Params, c: Core, m: Mem, insn: Insn)
    requires ValidCore(p, c) && |m| == p.size && Encodes(c.front.instr, insn) && insn.Store?
    requires c.front.state.ExecuteInstr?
    ensures var a := LoadStoreAddr(p, c);
      |m| > 0 && Written(p, c, m) == Poke(m, Floor(insn.width, a), StoredBytes(insn.width, a, c.front.rs2))
  {
    hide Pow2, Rd, Rs1, Rs2, ImmS, Funct3, LoadStoreAddr, ByteOf, PutLanes, Poke;
    FunctBits(c.front.instr);
    OpcodeBits(c.front.instr);
    Fits(p);
    var a := LoadStoreAddr(p, c);
    LaneOf(a, |m|);
    match insn.width
    case Byte => PokeByte(m, a / 4, a % 4, MemWdata(p, c));
    case Half => PokeHalf(m, a / 4, a % 4 >= 2, MemWdata(p, c));
    case Full => PokeFull(m, a / 4, MemWdata(p, c));
  }
}
