/** What loads deliver, as signed and unsigned numbers, and that a load finds what was stored. */
module Loads {
  import opened Arith
  import opened Isa
  import opened Machine
  import opened Core
  import opened Bus
  import opened Bits
  import opened Signals
  import ByteLanes

  // The load multiplexers, one width at a time.
  lemma LoadedByte(p: Params, c: Core, x: Inputs, insn: Insn)
    requires ValidCore(p, c) && Encodes(c.front.instr, insn) && insn.Load? && insn.width.Byte?
    ensures 0 <= LoadStoreAddr(p, c) % 4 < 4
    ensures LoadData(p, c, x) == ExtendValue(insn.unsigned, Number8(ByteLanes.Lane(x.rdata, LoadStoreAddr(p, c) % 4)),
      0x80)
  {
    hide Pow2, Rd, Rs1, ImmI, Funct3, LoadStoreAddr, WordValue, ExtendValue;
    FunctBits(c.front.instr);
    FunctRange(c.front.instr);
    Fits(p);
    ByteLanes.LaneOf(LoadStoreAddr(p, c), p.size);
  }

  lemma LoadedHalf(p: Params, c: Core, x: Inputs, insn: Insn)
    requires ValidCore(p, c) && Encodes(c.front.instr, insn) && insn.Load? && insn.width.Half?
    ensures var h := LoadHalf(p, c, x); 0 <= HalfValue(h.0, h.1) < 0x1_0000
    ensures var h := LoadHalf(p, c, x); LoadData(p, c, x) == ExtendValue(insn.unsigned, HalfValue(h.0, h.1), 0x8000)
  {
    hide Pow2, Rd, Rs1, ImmI, Funct3, LoadStoreAddr, WordValue, ExtendValue, LoadHalf;
    FunctBits(c.front.instr);
    FunctRange(c.front.instr);
  }

  lemma LoadedFull(p: Params, c: Core, x: Inputs, insn: Insn)
    requires ValidCore(p, c) && Encodes(c.front.instr, insn) && insn.Load? && insn.width.Full?
    ensures LoadData(p, c, x) == WordValue(x.rdata.b0, x.rdata.b1, x.rdata.b2, x.rdata.b3)
  {
    hide Pow2, Rd, Rs1, ImmI, Funct3, LoadStoreAddr, WordValue, ExtendValue, LoadHalf;
    FunctBits(c.front.instr);
  }

  // v holds the low half of its range, or, when it is signed, stands for v less that range.
  lemma Extended(unsigned: bool, v: int, sign: int)
    requires 0 <= v < 2 * sign && 2 * sign <= 0x1_0000
    ensures unsigned ==> ExtendValue(unsigned, v, sign) == v
    ensures !unsigned ==> SignedW(ExtendValue(unsigned, v, sign)) == if v < sign then v else v - 2 * sign
  {
    hide Pow2;
    Pow32();
  }

  // LB, LBU, LH, LHU and LW of the bytes in memory.
  lemma LoadMeaning(m: Mem, unsigned: bool, a: int)
    requires |m| > 0
    ensures var b := Get(m, a) as int;
      if unsigned then LoadValue(m, Byte, unsigned, a) == b
      else SignedW(LoadValue(m, Byte, unsigned, a)) == if b < 0x80 then b else b - 0x100
    ensures var h := Get(m, a) as int + 0x100 * (Get(m, a + 1) as int);
      if unsigned then LoadValue(m, Half, unsigned, a) == h
      else SignedW(LoadValue(m, Half, unsigned, a)) == if h < 0x8000 then h else h - 0x1_0000
    ensures LoadValue(m, Full, unsigned, a)
         == Get(m, a) as int + 0x100 * (Get(m, a + 1) as int) + 0x1_0000 * (Get(m, a + 2) as int)
            + 0x100_0000 * (Get(m, a + 3) as int)
  {
    hide Pow2, Get, ExtendValue, SignedW;
    Extended(unsigned, Get(m, a) as int, 0x80);
    Extended(unsigned, Get(m, a) as int + 0x100 * (Get(m, a + 1) as int), 0x8000);
  }

  // The same of the lanes on the bus that the core selects.
  lemma LoadedMeaning(p: Params, c: Core, x: Inputs, insn: Insn)
    requires ValidCore(p, c) && Encodes(c.front.instr, insn) && insn.Load?
    ensures 0 <= LoadStoreAddr(p, c) % 4 < 4
    ensures var v, a := LoadData(p, c, x), LoadStoreAddr(p, c);
      match insn.width
      case Byte =>
        var b := ByteLanes.Lane(x.rdata, a % 4) as int;
        if insn.unsigned then v == b else SignedW(v) == if b < 0x80 then b else b - 0x100
      case Half =>
        var k := if a / 2 % 2 == 1 then 2 else 0;
        var h := ByteLanes.Lane(x.rdata, k) as int + 0x100 * (ByteLanes.Lane(x.rdata, k + 1) as int);
        if insn.unsigned then v == h else SignedW(v) == if h < 0x8000 then h else h - 0x1_0000
      case Full =>
        v == x.rdata.b0 as int + 0x100 * (x.rdata.b1 as int) + 0x1_0000 * (x.rdata.b2 as int)
             + 0x100_0000 * (x.rdata.b3 as int)
  {
    hide Pow2, Encodes, LoadStoreAddr, LoadData, ExtendValue, SignedW;
    match insn.width
    case Byte =>
      LoadedByte(p, c, x, insn);
      Extended(insn.unsigned, Number8(ByteLanes.Lane(x.rdata, LoadStoreAddr(p, c) % 4)), 0x80);
    case Half =>
      LoadedHalf(p, c, x, insn);
      var h := LoadHalf(p, c, x);
      Extended(insn.unsigned, HalfValue(h.0, h.1), 0x8000);
    case Full => LoadedFull(p, c, x, insn);
  }

  // A byte put at one address and read at another.
  lemma GetPut(m: Mem, a: int, b: bv8, c: int)
    requires |m| > 0
    ensures Get(Put(m, a, b), c) == if c % |m| == a % |m| then b else Get(m, c)
  {
  }

  lemma Different(a: int, i: int, j: int, n: int)
    requires n >= 4 && 0 <= i < j < 4
    ensures (a + i) % n != (a + j) % n
  {
    var x, y := (a + i) % n, (a + j) % n;
    var q, r := (a + i) / n, (a + j) / n;
    assert a + i == q * n + x && a + j == r * n + y;
    assert (r - q) * n == j - i + x - y;
    Multiple(r - q, n);
  }

  lemma PutBeside(m: Mem, a: int, i: nat, j: nat, b: bv8)
    requires |m| >= 4 && j < i < 4
    ensures Get(Put(m, a + i, b), a + j) == Get(m, a + j)
  {
    hide Get, Put;
    Different(a, j, i, |m|);
    GetPut(m, a + i, b, a + j);
  }

  // Every byte of a store is where a load looks for it.
  lemma StoredBytesRead(m: Mem, width: Width, a: int, x: Word)
    requires |m| >= 4
    ensures var r := StoreValue(m, width, a, x);
      && Get(r, a) == ByteOf(x, 0) && (!width.Byte? ==> Get(r, a + 1) == ByteOf(x, 1))
      && (width.Full? ==> Get(r, a + 2) == ByteOf(x, 2) && Get(r, a + 3) == ByteOf(x, 3))
  {
    hide Pow2, ByteOf, Get, Put;
    var m1 := Put(m, a, ByteOf(x, 0));
    var m2 := Put(m1, a + 1, ByteOf(x, 1));
    var m3 := Put(m2, a + 2, ByteOf(x, 2));
    GetPut(m, a, ByteOf(x, 0), a);
    GetPut(m1, a + 1, ByteOf(x, 1), a + 1);
    GetPut(m2, a + 2, ByteOf(x, 2), a + 2);
    GetPut(m3, a + 3, ByteOf(x, 3), a + 3);
    PutBeside(m1, a, 1, 0, ByteOf(x, 1));
    PutBeside(m2, a, 2, 0, ByteOf(x, 2));
    PutBeside(m2, a, 2, 1, ByteOf(x, 2));
    PutBeside(m3, a, 3, 0, ByteOf(x, 3));
    PutBeside(m3, a, 3, 1, ByteOf(x, 3));
    PutBeside(m3, a, 3, 2, ByteOf(x, 3));
  }

  lemma Split(x: Word)
    ensures x % 0x100 + 0x100 * (x / 0x100 % 0x100) == x % 0x1_0000
    ensures x % 0x100 + 0x100 * (x / 0x100 % 0x100) + 0x1_0000 * (x / 0x1_0000 % 0x100)
      + 0x100_0000 * (x / 0x100_0000 % 0x100) == x
  {
    Pow32();
    hide Pow2;
  }

  // What is stored is what an unsigned load of the same width at the same address delivers.
  lemma StoreLoad(m: Mem, width: Width, a: int, x: Word)
    requires |m| >= 4
    ensures LoadValue(StoreValue(m, width, a, x), width, true, a)
         == match width case Byte => x % 0x100 case Half => x % 0x1_0000 case Full => x
  {
    hide Pow2, Get, ByteOf, StoreValue, LoadValue, Cut, Number8;
    StoredBytesRead(m, width, a, x);
    LoadNumbers(StoreValue(m, width, a, x), a);
    CutDigits(x);
    CutNumber(x);
    CutNumber(x / 0x100);
    CutNumber(x / 0x1_0000);
    CutNumber(x / 0x100_0000);
    Split(x);
  }

  lemma LoadNumbers(m: Mem, a: int)
    requires |m| > 0
    ensures LoadValue(m, Byte, true, a) == Number8(Get(m, a))
    ensures LoadValue(m, Half, true, a) == Number8(Get(m, a)) + 0x100 * Number8(Get(m, a + 1))
    ensures LoadValue(m, Full, true, a) == Number8(Get(m, a)) + 0x100 * Number8(Get(m, a + 1))
      + 0x1_0000 * Number8(Get(m, a + 2)) + 0x100_0000 * Number8(Get(m, a + 3))
  {
    hide Pow2, Get, LoadValue;
    LoadMeaning(m, true, a);
  }
}
