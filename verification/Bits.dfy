/** Bit patterns as numbers: what masking, joining and the logical operations do to the values they
    stand for, one bit at a time. */
module Bits {
  import opened Arith
  import opened Isa
  import opened Machine

  // Shifts and tests under names of their own, so that the lemmas below see them one at a time.
  function Double(v: bv32): bv32 { v << 1 }
  function DoublePlus(v: bv32): bv32 { (v << 1) + 1 }
  function Halve(v: bv32): bv32 { v >> 1 }
  predicate Lowest(v: bv32) { v & 1 == 1 }
  predicate Under(v: bv32, bound: bv32) { v < bound }

  lemma DoubleNumber(v: bv32)
    requires Under(v, 0x8000_0000)
    ensures ToWord(Double(v)) == 2 * ToWord(v) && ToWord(DoublePlus(v)) == 2 * ToWord(v) + 1
  {
    hide Pow2;
  }

  lemma HalveBack(v: bv32)
    ensures Under(Halve(v), 0x8000_0000) && v == if Lowest(v) then DoublePlus(Halve(v)) else Double(Halve(v))
  {
  }

  // A number and its half.
  lemma LowestBit(v: bv32)
    ensures ToWord(v) == 2 * ToWord(Halve(v)) + if Lowest(v) then 1 else 0
  {
    hide *;
    HalveBack(v);
    DoubleNumber(Halve(v));
  }

  lemma ZeroNumber(v: bv32)
    ensures ToWord(v) == 0 <==> v == 0
  {
    hide Pow2;
  }

  // Words and 32-bit patterns stand for each other.
  lemma PatternBack(v: bv32)
    ensures ToBits(ToWord(v)) == v
  {
    hide Pow2;
    Pow32();
  }

  lemma UnderNumber(v: bv32)
    requires ToWord(v) < 0x8000_0000
    ensures Under(v, 0x8000_0000)
  {
    hide Pow2;
  }

  // Every word has a pattern.
  lemma {:induction false} PatternOf(x: nat) returns (v: bv32)
    requires x < 0x1_0000_0000
    ensures ToWord(v) == x
  {
    hide *;
    v := 0;
    if x == 0 {
      ZeroNumber(0);
    } else {
      var h := PatternOf(x / 2);
      UnderNumber(h);
      DoubleNumber(h);
      v := if x % 2 == 1 then DoublePlus(h) else Double(h);
    }
  }

  lemma WordBack(x: Word)
    ensures ToWord(ToBits(x)) == x
  {
    hide *;
    Pow32();
    var v := PatternOf(x);
    PatternBack(v);
  }

  // Bit k of a number.
  predicate Bit(x: nat, k: nat)
    decreases k
  {
    if k == 0 then x % 2 == 1 else Bit(x / 2, k - 1)
  }

  lemma LowestOf(v: bv32)
    ensures ToWord(v) % 2 == (if Lowest(v) then 1 else 0) && ToWord(v) / 2 == ToWord(Halve(v))
  {
    hide *;
    LowestBit(v);
    DivMod(ToWord(v), 2, ToWord(Halve(v)), if Lowest(v) then 1 else 0);
  }

  function And(a: bv32, b: bv32): bv32 { a & b }
  function Or(a: bv32, b: bv32): bv32 { a | b }
  function Xor(a: bv32, b: bv32): bv32 { a ^ b }

  lemma AndStep(a: bv32, b: bv32)
    ensures Halve(And(a, b)) == And(Halve(a), Halve(b)) && (Lowest(And(a, b)) <==> Lowest(a) && Lowest(b))
  {
  }

  lemma OrStep(a: bv32, b: bv32)
    ensures Halve(Or(a, b)) == Or(Halve(a), Halve(b)) && (Lowest(Or(a, b)) <==> Lowest(a) || Lowest(b))
  {
  }

  lemma XorStep(a: bv32, b: bv32)
    ensures Halve(Xor(a, b)) == Xor(Halve(a), Halve(b)) && (Lowest(Xor(a, b)) <==> Lowest(a) != Lowest(b))
  {
  }

  lemma LogicStep(a: bv32, b: bv32)
    ensures Halve(And(a, b)) == And(Halve(a), Halve(b)) && (Lowest(And(a, b)) <==> Lowest(a) && Lowest(b))
    ensures Halve(Or(a, b)) == Or(Halve(a), Halve(b)) && (Lowest(Or(a, b)) <==> Lowest(a) || Lowest(b))
    ensures Halve(Xor(a, b)) == Xor(Halve(a), Halve(b)) && (Lowest(Xor(a, b)) <==> Lowest(a) != Lowest(b))
  {
    hide *;
    AndStep(a, b);
    OrStep(a, b);
    XorStep(a, b);
  }

  lemma {:induction false} LogicBits(a: bv32, b: bv32, k: nat)
    ensures Bit(ToWord(And(a, b)), k) <==> Bit(ToWord(a), k) && Bit(ToWord(b), k)
    ensures Bit(ToWord(Or(a, b)), k) <==> Bit(ToWord(a), k) || Bit(ToWord(b), k)
    ensures Bit(ToWord(Xor(a, b)), k) <==> Bit(ToWord(a), k) != Bit(ToWord(b), k)
    decreases k
  {
    hide *;
    LogicStep(a, b);
    BitHalf(a, k);
    BitHalf(b, k);
    BitHalf(And(a, b), k);
    BitHalf(Or(a, b), k);
    BitHalf(Xor(a, b), k);
    if k > 0 { LogicBits(Halve(a), Halve(b), k - 1); }
  }

  lemma BitHalf(v: bv32, k: nat)
    ensures Bit(ToWord(v), k) <==> if k == 0 then Lowest(v) else Bit(ToWord(Halve(v)), k - 1)
  {
    hide ToWord, Halve, Lowest, Pow2;
    LowestOf(v);
  }

  lemma AndOfBits(x: Word, y: Word)
    ensures AndW(x, y) == ToWord(And(ToBits(x), ToBits(y)))
  {
    hide ToWord, ToBits, Pow2;
  }

  lemma OrOfBits(x: Word, y: Word)
    ensures OrW(x, y) == ToWord(Or(ToBits(x), ToBits(y)))
  {
    hide ToWord, ToBits, Pow2;
  }

  lemma XorOfBits(x: Word, y: Word)
    ensures XorW(x, y) == ToWord(Xor(ToBits(x), ToBits(y)))
  {
    hide ToWord, ToBits, Pow2;
  }

  // AND, OR and XOR of words, bit by bit.
  lemma LogicExact(x: Word, y: Word, k: nat)
    ensures Bit(AndW(x, y), k) <==> Bit(x, k) && Bit(y, k)
    ensures Bit(OrW(x, y), k) <==> Bit(x, k) || Bit(y, k)
    ensures Bit(XorW(x, y), k) <==> Bit(x, k) != Bit(y, k)
  {
    hide *;
    AndOfBits(x, y);
    OrOfBits(x, y);
    XorOfBits(x, y);
    WordBack(x);
    WordBack(y);
    LogicBits(ToBits(x), ToBits(y), k);
  }

  // Numbers with the same bits are the same number.
  lemma {:induction false} SameBits(x: nat, y: nat, n: nat)
    requires x < Pow2(n) && y < Pow2(n) && forall k: nat :: k < n ==> Bit(x, k) == Bit(y, k)
    ensures x == y
    decreases n
  {
    if n > 0 {
      assert Bit(x, 0) == Bit(y, 0);
      forall k: nat | k < n - 1 ensures Bit(x / 2, k) == Bit(y / 2, k) {
        assert Bit(x, k + 1) == Bit(y, k + 1);
      }
      SameBits(x / 2, y / 2, n - 1);
    }
  }

  // Patterns that share no bit: joining them adds their numbers.
  predicate Apart(a: bv32, b: bv32) { a & b == 0 }

  lemma ApartStep(a: bv32, b: bv32)
    requires Apart(a, b)
    ensures Apart(Halve(a), Halve(b)) && !(Lowest(a) && Lowest(b))
  {
  }

  lemma {:induction false} JoinAdds(a: bv32, b: bv32)
    requires Apart(a, b)
    ensures ToWord(Or(a, b)) == ToWord(a) + ToWord(b)
    decreases ToWord(a) + ToWord(b)
  {
    hide ToWord, Or, And, Xor, Halve, Lowest, Apart, Pow2;
    LowestBit(a);
    LowestBit(b);
    LowestBit(Or(a, b));
    if ToWord(a) + ToWord(b) == 0 {
      ZeroNumber(a);
      ZeroNumber(b);
      ZeroNumber(0);
      OrZero();
    } else {
      LogicStep(a, b);
      ApartStep(a, b);
      JoinAdds(Halve(a), Halve(b));
    }
  }

  lemma OrZero()
    ensures Or(0, 0) == 0
  {
  }

  // Shifting left by four, eight and sixteen, while nothing is lost.
  function Up4(v: bv32): bv32 { Double(Double(Double(Double(v)))) }
  function Up8(v: bv32): bv32 { v << 8 }
  function Up16(v: bv32): bv32 { v << 16 }

  lemma Up4Number(v: bv32)
    requires Under(v, 0x1000_0000)
    ensures ToWord(Up4(v)) == 16 * ToWord(v)
  {
    hide *;
    Up4Steps(v);
    DoubleNumber(v);
    DoubleNumber(Double(v));
    DoubleNumber(Double(Double(v)));
    DoubleNumber(Double(Double(Double(v))));
  }

  lemma Up4Steps(v: bv32)
    requires Under(v, 0x1000_0000)
    ensures Under(v, 0x8000_0000) && Under(Double(v), 0x8000_0000) && Under(Double(Double(v)), 0x8000_0000)
    ensures Under(Double(Double(Double(v))), 0x8000_0000) && Up4(v) == Double(Double(Double(Double(v))))
  {
  }

  lemma Up8Number(v: bv32)
    requires Under(v, 0x100_0000)
    ensures ToWord(Up8(v)) == 0x100 * ToWord(v)
  {
    hide *;
    Up8Steps(v);
    Up4Number(v);
    Up4Number(Up4(v));
  }

  lemma Up8Steps(v: bv32)
    requires Under(v, 0x100_0000)
    ensures Under(v, 0x1000_0000) && Under(Up4(v), 0x1000_0000) && Up8(v) == Up4(Up4(v))
  {
  }

  lemma Up16Number(v: bv32)
    requires Under(v, 0x1_0000)
    ensures ToWord(Up16(v)) == 0x1_0000 * ToWord(v)
  {
    hide *;
    Up16Steps(v);
    Up8Number(v);
    Up8Number(Up8(v));
  }

  lemma Up16Steps(v: bv32)
    requires Under(v, 0x1_0000)
    ensures Under(v, 0x100_0000) && Under(Up8(v), 0x100_0000) && Up16(v) == Up8(Up8(v))
  {
  }

  // A halfword is its two bytes, and a long instruction its two halfwords, as numbers.
  function Wide8(b: bv8): bv32 { b as bv32 }
  function Wide16(h: bv16): bv32 { h as bv32 }
  function Number8(b: bv8): (x: int) ensures 0 <= x < 0x100 { b as int }
  function Number16(h: bv16): (x: int) ensures 0 <= x < 0x1_0000 { h as int }

  lemma WideNumber(b: bv8, h: bv16)
    ensures ToWord(Wide8(b)) == Number8(b) && ToWord(Wide16(h)) == Number16(h)
  {
    hide Pow2;
  }

  lemma HalfPattern(b0: bv8, b1: bv8)
    ensures Wide16(HalfBits(b0, b1)) == Or(Wide8(b0), Up8(Wide8(b1)))
    ensures Apart(Wide8(b0), Up8(Wide8(b1))) && Under(Wide8(b1), 0x100_0000)
  {
  }

  lemma JoinPattern(lo: bv16, hi: bv16)
    ensures Join(lo, hi) == Or(Wide16(lo), Up16(Wide16(hi)))
    ensures Apart(Wide16(lo), Up16(Wide16(hi))) && Under(Wide16(hi), 0x1_0000)
  {
  }

  lemma HalfNumber(b0: bv8, b1: bv8)
    ensures Number16(HalfBits(b0, b1)) == Number8(b0) + 0x100 * Number8(b1)
  {
    hide *;
    HalfPattern(b0, b1);
    WideNumber(b0, 0);
    WideNumber(b1, HalfBits(b0, b1));
    Up8Number(Wide8(b1));
    JoinAdds(Wide8(b0), Up8(Wide8(b1)));
  }

  lemma JoinNumber(lo: bv16, hi: bv16)
    ensures ToWord(Join(lo, hi)) == Number16(lo) + 0x1_0000 * Number16(hi)
  {
    hide *;
    JoinPattern(lo, hi);
    WideNumber(0, lo);
    WideNumber(0, hi);
    Up16Number(Wide16(hi));
    JoinAdds(Wide16(lo), Up16(Wide16(hi)));
  }

  // The four bytes at an address whose lowest bit is ignored, as one number.
  function LongValue(m: Mem, a: int): Word
    requires |m| > 0
  {
    var e := a - a % 2;
    WordValue(Get(m, e), Get(m, e + 1), Get(m, e + 2), Get(m, e + 3))
  }

  lemma ByteNumbers(b0: bv8, b1: bv8, b2: bv8, b3: bv8)
    ensures HalfValue(b0, b1) == Number8(b0) + 0x100 * Number8(b1)
    ensures WordValue(b0, b1, b2, b3) == HalfValue(b0, b1) + 0x1_0000 * HalfValue(b2, b3)
  {
    hide Pow2;
  }

  lemma NextEven(a: int)
    ensures a + 2 - (a + 2) % 2 == a - a % 2 + 2
  {
  }

  lemma HalfRead(m: Mem, a: int)
    requires |m| > 0
    ensures HalfAt(m, a) == HalfBits(Get(m, a - a % 2), Get(m, a - a % 2 + 1))
  {
    hide HalfBits, Get;
  }

  // Two consecutive halfwords of memory, joined, are the number of their four bytes.
  lemma LongNumber(m: Mem, a: int)
    requires |m| > 0
    ensures ToWord(Join(HalfAt(m, a), HalfAt(m, a + 2))) == LongValue(m, a)
  {
    hide ToWord, Join, HalfAt, HalfBits, Get, HalfValue, WordValue, Number8, Number16, Pow2;
    var e := a - a % 2;
    NextEven(a);
    HalfRead(m, a);
    HalfRead(m, a + 2);
    JoinNumber(HalfAt(m, a), HalfAt(m, a + 2));
    HalfNumber(Get(m, e), Get(m, e + 1));
    HalfNumber(Get(m, e + 2), Get(m, e + 3));
    ByteNumbers(Get(m, e), Get(m, e + 1), Get(m, e + 2), Get(m, e + 3));
    ByteNumbers(Get(m, e + 2), Get(m, e + 3), Get(m, e + 2), Get(m, e + 3));
  }

  // The byte of a number.
  function Cut(x: int): bv8 { (x % 0x100) as bv8 }

  lemma Again(b: bv8)
    ensures (b as int) as bv8 == b
  {
  }

  lemma CutBack(b: bv8)
    ensures Cut(Number8(b)) == b
  {
    Again(b);
    DivMod(b as int, 0x100, 0, b as int);
  }

  lemma FourDigits(n0: int, n1: int, n2: int, n3: int)
    requires 0 <= n0 < 0x100 && 0 <= n1 < 0x100 && 0 <= n2 < 0x100 && 0 <= n3 < 0x100
    ensures var x := n0 + 0x100 * n1 + 0x1_0000 * (n2 + 0x100 * n3);
      x % 0x100 == n0 && x / 0x100 % 0x100 == n1 && x / 0x1_0000 % 0x100 == n2 && x / 0x100_0000 % 0x100 == n3
  {
    var x, high := n0 + 0x100 * n1 + 0x1_0000 * (n2 + 0x100 * n3), n2 + 0x100 * n3;
    DivMod(x, 0x100, n1 + 0x100 * high, n0);
    DivMod(n1 + 0x100 * high, 0x100, high, n1);
    DivMod(x, 0x1_0000, high, n0 + 0x100 * n1);
    DivMod(high, 0x100, n3, n2);
    DivMod(x, 0x100_0000, n3, n0 + 0x100 * n1 + 0x1_0000 * n2);
    DivMod(n3, 0x100, 0, n3);
  }

  lemma WordNumber(b0: bv8, b1: bv8, b2: bv8, b3: bv8)
    ensures WordValue(b0, b1, b2, b3)
         == Number8(b0) + 0x100 * Number8(b1) + 0x1_0000 * (Number8(b2) + 0x100 * Number8(b3))
  {
    hide Pow2;
  }

  lemma CutDigits(x: Word)
    ensures ByteOf(x, 0) == Cut(x) && ByteOf(x, 1) == Cut(x / 0x100)
    ensures ByteOf(x, 2) == Cut(x / 0x1_0000) && ByteOf(x, 3) == Cut(x / 0x100_0000)
  {
    hide Pow2;
  }

  lemma CutSame(x: int, b: bv8)
    requires x % 0x100 == Number8(b)
    ensures Cut(x) == b
  {
    hide Number8;
    CutBack(b);
    DivMod(Number8(b), 0x100, 0, Number8(b));
    CutMod(x, Number8(b));
  }

  lemma CutMod(x: int, y: int)
    requires x % 0x100 == y % 0x100
    ensures Cut(x) == Cut(y)
  {
  }

  lemma BytesOfWord(b0: bv8, b1: bv8, b2: bv8, b3: bv8)
    ensures var x := WordValue(b0, b1, b2, b3);
      ByteOf(x, 0) == b0 && ByteOf(x, 1) == b1 && ByteOf(x, 2) == b2 && ByteOf(x, 3) == b3
  {
    hide *;
    var x := WordValue(b0, b1, b2, b3);
    WordNumber(b0, b1, b2, b3);
    FourDigits(Number8(b0), Number8(b1), Number8(b2), Number8(b3));
    CutDigits(x);
    CutSame(x, b0);
    CutSame(x / 0x100, b1);
    CutSame(x / 0x1_0000, b2);
    CutSame(x / 0x100_0000, b3);
  }

  function Double8(b: bv8): bv8 { b << 1 }
  function DoublePlus8(b: bv8): bv8 { (b << 1) + 1 }

  lemma Double8Number(b: bv8)
    requires Number8(b) < 0x80
    ensures Number8(Double8(b)) == 2 * Number8(b) && Number8(DoublePlus8(b)) == 2 * Number8(b) + 1
  {
  }

  lemma Zero8()
    ensures Number8(0) == 0
  {
  }

  lemma {:induction false} ByteNumbered(x: nat) returns (b: bv8)
    requires x < 0x100
    ensures Number8(b) == x
  {
    hide *;
    b := 0;
    if x == 0 {
      Zero8();
    } else {
      var h := ByteNumbered(x / 2);
      Double8Number(h);
      b := if x % 2 == 1 then DoublePlus8(h) else Double8(h);
    }
  }

  // Cutting a number down to a byte keeps its lowest eight bits.
  lemma CutNumber(x: int)
    ensures Number8(Cut(x)) == x % 0x100
  {
    hide *;
    var b := ByteNumbered(x % 0x100);
    CutSame(x, b);
  }

  // Complement, bit by bit.
  lemma {:induction false} ComplementBits(x: nat, n: nat, k: nat)
    requires k < n && x < Pow2(n)
    ensures Bit(Pow2(n) - 1 - x, k) <==> !Bit(x, k)
    decreases n
  {
    var h := Pow2(n - 1);
    DivMod(2 * h - 1 - x, 2, h - 1 - x / 2, 1 - x % 2);
    if k > 0 { ComplementBits(x / 2, n - 1, k - 1); }
  }

  // What CSRRS and CSRRC leave in a CSR, bit by bit.
  lemma CsrBits(current: Word, source: Word, k: nat)
    requires k < 32
    ensures Bit(CsrValue(Rs, current, source), k) <==> Bit(source, k) || Bit(current, k)
    ensures Bit(CsrValue(Rc, current, source), k) <==> !Bit(source, k) && Bit(current, k)
    ensures CsrValue(Rw, current, source) == source
  {
    hide Pow2, OrW, AndW, Bit;
    LogicExact(source, current, k);
    LogicExact(NotW(source), current, k);
    ComplementBits(source, 32, k);
  }

  // Sums and differences wrap once.
  lemma SumsWrap(x: Word, y: Word)
    ensures Alu(Add, x, y) == if x + y < 0x1_0000_0000 then x + y else x + y - 0x1_0000_0000
    ensures Alu(Sub, x, y) == if x >= y then x - y else x - y + 0x1_0000_0000
  {
    Pow32();
    hide Pow2;
    DivMod(x + y, Pow2(32), if x + y < Pow2(32) then 0 else 1,
           if x + y < Pow2(32) then x + y else x + y - Pow2(32));
    DivMod(x - y, Pow2(32), if x >= y then 0 else -1, if x >= y then x - y else x - y + Pow2(32));
  }
}
