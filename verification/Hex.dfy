/** The stub's hexadecimal codecs: bytes, 32-bit registers in little-endian byte order, and
    numbers of any length. */
module Hex {
  import opened Arith
  import opened Machine
  import Bits

  // A character on the wire.
  type Octet = c: char | c as int < 256 witness '0'

  // hex_to_nib; -1 for anything that is not a hex digit.
  function HexToNib(c: char): (n: int)
    ensures -1 <= n < 16
  {
    if '0' <= c <= '9' then c as int - '0' as int
    else if 'a' <= c <= 'f' then c as int - 'a' as int + 10
    else if 'A' <= c <= 'F' then c as int - 'A' as int + 10
    else -1
  }

  const DIGITS := "0123456789abcdef"
  const UPPER_DIGITS := "0123456789ABCDEF"

  function NibToHex(v: int): (c: Octet)
    ensures HexToNib(c) == v % 16
    ensures c != '#' && c != '$' && c != '\0'
  {
    DIGITS[v % 16]
  }

  // Both cases are read, and nothing else is.
  lemma DigitsRead(v: nat, c: char)
    ensures v < 16 ==> HexToNib(DIGITS[v]) == v && HexToNib(UPPER_DIGITS[v]) == v
    ensures c !in DIGITS && c !in UPPER_DIGITS ==> HexToNib(c) == -1
  {
    if HexToNib(c) >= 0 {
      assert c == DIGITS[HexToNib(c)] || c == UPPER_DIGITS[HexToNib(c)];
    }
  }

  predicate IsHex(c: char) { HexToNib(c) >= 0 }

  // mem_to_hex.
  function Encode(bytes: seq<bv8>): (s: seq<Octet>)
    ensures |s| == 2 * |bytes|
  {
    if bytes == [] then [] else [NibToHex(bytes[0] as int / 16), NibToHex(bytes[0] as int)] + Encode(bytes[1..])
  }

  function FromDigits(hi: char, lo: char): bv8
    requires IsHex(hi) && IsHex(lo)
  {
    (HexToNib(hi) * 16 + HexToNib(lo)) as bv8
  }

  // hex_to_mem: bytes until len are decoded or a digit is missing.
  function Decode(s: seq<Octet>, len: nat): (bytes: seq<bv8>)
    ensures |bytes| <= len && 2 * |bytes| <= |s|
    decreases len
  {
    if len == 0 || |s| < 2 || !IsHex(s[0]) || !IsHex(s[1]) then []
    else [FromDigits(s[0], s[1])] + Decode(s[2..], len - 1)
  }

  lemma TwoDigits(x: bv8)
    ensures FromDigits(NibToHex(x as int / 16), NibToHex(x as int)) == x
  {
    hide HexToNib, NibToHex;
    assert x as int / 16 % 16 * 16 + x as int % 16 == x as int;
  }

  // Decoding undoes encoding, whatever follows.
  lemma {:induction false} RoundTrip(bytes: seq<bv8>, rest: seq<Octet>)
    ensures Decode(Encode(bytes) + rest, |bytes|) == bytes
  {
    hide HexToNib, NibToHex, FromDigits;
    if bytes != [] {
      var s := Encode(bytes) + rest;
      assert s == [NibToHex(bytes[0] as int / 16), NibToHex(bytes[0] as int)] + (Encode(bytes[1..]) + rest);
      assert s[2..] == Encode(bytes[1..]) + rest;
      TwoDigits(bytes[0]);
      RoundTrip(bytes[1..], rest);
    }
  }

  lemma {:induction false} EncodeAppend(a: seq<bv8>, x: bv8)
    ensures Encode(a + [x]) == Encode(a) + [NibToHex(x as int / 16), NibToHex(x as int)]
  {
    hide NibToHex;
    if a != [] {
      assert (a + [x])[1..] == a[1..] + [x];
      EncodeAppend(a[1..], x);
    }
  }

  // The loop of mem_to_hex, into the front of a buffer.
  method MemToHex(mem: seq<bv8>, buf: array<Octet>) returns (n: nat)
    requires 2 * |mem| <= buf.Length
    modifies buf
    ensures n == 2 * |mem| && buf[..n] == Encode(mem)
    ensures forall k :: n <= k < buf.Length ==> buf[k] == old(buf[k])
  {
    hide NibToHex, Encode;
    var i := 0;
    assert Encode([]) == [] by { EmptyEncoding(); }
    while i < |mem|
      invariant 0 <= i <= |mem|
      invariant buf[..2 * i] == Encode(mem[..i])
      invariant forall k :: 2 * i <= k < buf.Length ==> buf[k] == old(buf[k])
    {
      ghost var before := buf[..2 * i];
      var hi, lo := NibToHex(mem[i] as int / 16), NibToHex(mem[i] as int);
      buf[2 * i] := hi;
      buf[2 * i + 1] := lo;
      EncodeAppend(mem[..i], mem[i]);
      assert mem[..i + 1] == mem[..i] + [mem[i]];
      assert buf[..2 * i] == before;
      assert buf[..2 * (i + 1)] == before + [hi, lo];
      i := i + 1;
    }
    assert mem[..|mem|] == mem;
    n := 2 * |mem|;
  }

  lemma EmptyEncoding()
    ensures Encode([]) == []
  {
  }

  // The loop of hex_to_mem; the bytes go to memory as they are decoded.
  method HexToMem(s: seq<Octet>, len: nat) returns (bytes: seq<bv8>)
    ensures bytes == Decode(s, len)
  {
    hide HexToNib, FromDigits;
    var i := 0;
    bytes := [];
    while i < len
      invariant 0 <= i <= len && |bytes| == i && 2 * i <= |s|
      invariant bytes + Decode(s[2 * i..], len - i) == Decode(s, len)
    {
      if 2 * i + 1 >= |s| || !IsHex(s[2 * i]) || !IsHex(s[2 * i + 1]) { return; }
      assert s[2 * i..][2..] == s[2 * (i + 1)..];
      bytes := bytes + [FromDigits(s[2 * i], s[2 * i + 1])];
      i := i + 1;
    }
  }

  // Registers: eight digits, lowest byte first. The shifts have names so that the lemmas
  // below can treat them one at a time.
  function Shr4(v: bv32): bv32 { v >> 4 }
  function Shr8(v: bv32): bv32 { v >> 8 }
  function Or(a: bv32, b: bv32): bv32 { a | b }
  function LowByte(v: bv32): bv32 { v & 0xFF }
  function Up(b: bv32, i: nat): bv32 {
    if i == 0 then b else if i == 1 then b << 8 else if i == 2 then b << 16 else b << 24
  }

  function Digit(v: bv32): (c: Octet)
    ensures c != '#' && c != '$' && c != '\0'
  {
    NibToHex((v & 15) as int)
  }

  // n rounds of u32_to_hex_le.
  function RegDigits(v: bv32, n: nat): (s: seq<Octet>)
    ensures |s| == 2 * n
    decreases n
  {
    if n == 0 then [] else [Digit(Shr4(v)), Digit(v)] + RegDigits(Shr8(v), n - 1)
  }

  function RegToHex(v: bv32): (s: seq<Octet>)
    ensures |s| == 8
  {
    RegDigits(v, 4)
  }

  // hex_to_nib in the 32-bit arithmetic hex_le_to_u32 uses it in.
  function Nib(c: char): bv32
  {
    if HexToNib(c) < 0 then 0xFFFF_FFFF else HexToNib(c) as bv32
  }

  function HexByte(hi: char, lo: char): bv32 { (Nib(hi) << 4) | Nib(lo) }

  // n rounds of hex_le_to_u32.
  function Gathered(s: seq<Octet>, n: nat): bv32
    requires |s| >= 2 * n
  {
    if n == 0 then 0 else Or(Gathered(s, n - 1), Up(HexByte(s[2 * n - 2], s[2 * n - 1]), n - 1))
  }

  function HexToReg(s: seq<Octet>): bv32
    requires |s| >= 8
  {
    Gathered(s, 4)
  }

  lemma DigitNib(v: bv32)
    ensures Nib(Digit(v)) == v & 15
  {
    var x := v & 15;
    assert x < 16;
    assert x as int % 16 == x as int;
    assert (x as int) as bv32 == x;
  }

  lemma TwoNibbles(v: bv32)
    ensures (((v >> 4) & 15) << 4) | (v & 15) == v & 0xFF
  {
  }

  lemma ByteBack(v: bv32)
    ensures HexByte(Digit(Shr4(v)), Digit(v)) == LowByte(v)
  {
    hide Digit, Nib;
    DigitNib(v);
    DigitNib(v >> 4);
    TwoNibbles(v);
  }

  lemma FourBytes(v: bv32)
    ensures Or(Or(Or(Or(0, Up(LowByte(v), 0)), Up(LowByte(Shr8(v)), 1)), Up(LowByte(Shr8(Shr8(v))), 2)),
      Up(LowByte(Shr8(Shr8(Shr8(v)))), 3)) == v
  {
  }

  lemma DigitStep(v: bv32, n: nat)
    requires n > 0
    ensures RegDigits(v, n) == [Digit(Shr4(v)), Digit(v)] + RegDigits(Shr8(v), n - 1)
  {
    hide Digit, Shr4, Shr8;
  }

  // One more byte gathered from the digits of v, n bytes before it.
  lemma {:induction false} DigitsAt(v: bv32, n: nat, k: nat)
    requires k < n
    ensures RegDigits(v, n)[2 * k..2 * k + 2] == [Digit(Shr4(Down(v, k))), Digit(Down(v, k))]
    decreases n
  {
    hide Digit, Shr4, Shr8;
    if k > 0 {
      DigitsAt(Shr8(v), n - 1, k - 1);
      DigitStep(v, n);
      DownLater(v, k);
      assert RegDigits(v, n)[2 * k..2 * k + 2] == RegDigits(Shr8(v), n - 1)[2 * k - 2..2 * k];
    }
  }

  // The value after k rounds of v >>= 8.
  function Down(v: bv32, k: nat): bv32 { if k == 0 then v else Shr8(Down(v, k - 1)) }

  lemma {:induction false} DownLater(v: bv32, k: nat)
    requires k > 0
    ensures Down(v, k) == Down(Shr8(v), k - 1)
  {
    hide Shr8;
    if k > 1 { DownLater(v, k - 1); }
  }

  lemma ByteGathered(v: bv32, k: nat)
    requires k < 4
    ensures Gathered(RegToHex(v), k + 1) == Or(Gathered(RegToHex(v), k), Up(LowByte(Down(v, k)), k))
  {
    hide Digit, HexByte, Shr4, Shr8, Or, LowByte, Up, RegDigits, Down;
    var s := RegToHex(v);
    DigitsAt(v, 4, k);
    assert s[2 * k..2 * k + 2][0] == s[2 * k] && s[2 * k..2 * k + 2][1] == s[2 * k + 1];
    ByteBack(Down(v, k));
  }

  lemma RegRoundTrip(v: bv32)
    ensures HexToReg(RegToHex(v)) == v
  {
    hide Shr8, Or, LowByte, Up, RegToHex, Gathered;
    NothingGathered(RegToHex(v));
    ByteGathered(v, 0);
    ByteGathered(v, 1);
    ByteGathered(v, 2);
    ByteGathered(v, 3);
    assert Down(v, 1) == Shr8(v) && Down(v, 2) == Shr8(Down(v, 1)) && Down(v, 3) == Shr8(Down(v, 2));
    FourBytes(v);
  }

  lemma NothingGathered(s: seq<Octet>)
    ensures Gathered(s, 0) == 0
  {
  }

  // The register file's text, as the g reply carries it and G reads it.
  function RegsToHex(regs: seq<bv32>): (s: seq<Octet>)
    ensures |s| == 8 * |regs|
  {
    if regs == [] then [] else RegToHex(regs[0]) + RegsToHex(regs[1..])
  }

  function HexToRegs(s: seq<Octet>, n: nat): (regs: seq<bv32>)
    requires |s| >= 8 * n
    ensures |regs| == n
  {
    if n == 0 then [] else [HexToReg(s[..8])] + HexToRegs(s[8..], n - 1)
  }

  lemma {:induction false} RegsRoundTrip(regs: seq<bv32>, rest: seq<Octet>)
    ensures HexToRegs(RegsToHex(regs) + rest, |regs|) == regs
  {
    hide RegToHex, HexToReg;
    if regs != [] {
      var s := RegsToHex(regs) + rest;
      assert s[..8] == RegToHex(regs[0]);
      assert s[8..] == RegsToHex(regs[1..]) + rest;
      RegRoundTrip(regs[0]);
      RegsRoundTrip(regs[1..], rest);
    }
  }

  // Numbers: the digits from i on, up to the first character that is none.
  function RunEnd(s: seq<Octet>, i: nat): (j: nat)
    requires i <= |s|
    ensures i <= j <= |s| && (forall k :: i <= k < j ==> IsHex(s[k])) && (j < |s| ==> !IsHex(s[j]))
    decreases |s| - i
  {
    if i < |s| && IsHex(s[i]) then RunEnd(s, i + 1) else i
  }

  // The unbounded value of s[i..j].
  function Value(s: seq<Octet>, i: nat, j: nat): (v: nat)
    requires i <= j <= |s| && forall k :: i <= k < j ==> IsHex(s[k])
    decreases j - i
  {
    if i == j then 0 else assert IsHex(s[j - 1]); 16 * Value(s, i, j - 1) + HexToNib(s[j - 1])
  }

  // parse_hex: the value modulo 2^32, and the position after the digits.
  method ParseHex(s: seq<Octet>, start: nat) returns (v: int, i: nat)
    requires start <= |s|
    ensures i == RunEnd(s, start) && v == Value(s, start, i) % Pow2(32)
  {
    hide Pow2, HexToNib, Value, RunEnd;
    v, i := 0, start;
    NoDigits(s, start);
    while i < |s| && IsHex(s[i])
      invariant start <= i <= |s| && RunEnd(s, i) == RunEnd(s, start)
      invariant forall k :: start <= k < i ==> IsHex(s[k])
      invariant v == Value(s, start, i) % Pow2(32)
    {
      OneMore(s, start, i);
      ShiftIn(Value(s, start, i), HexToNib(s[i]), Pow2(32));
      v, i := (16 * v + HexToNib(s[i])) % Pow2(32), i + 1;
    }
  }

  lemma NoDigits(s: seq<Octet>, start: nat)
    requires start <= |s|
    ensures Value(s, start, start) == 0 == 0 % Pow2(32)
  {
    hide Pow2;
    DivMod(0, Pow2(32), 0, 0);
  }

  lemma OneMore(s: seq<Octet>, start: nat, i: nat)
    requires start <= i < |s| && IsHex(s[i]) && forall k :: start <= k < i ==> IsHex(s[k])
    ensures Value(s, start, i + 1) == 16 * Value(s, start, i) + HexToNib(s[i])
    ensures RunEnd(s, i) == RunEnd(s, i + 1)
  {
    hide HexToNib;
  }

  // Reducing before shifting in a digit changes nothing.
  lemma ShiftIn(x: int, d: int, n: int)
    requires n > 0
    ensures (16 * (x % n) + d) % n == (16 * x + d) % n
  {
    assert x == x / n * n + x % n;
    assert 16 * x + d == 16 * (x % n) + d + 16 * (x / n) * n;
    ModShift(16 * (x % n) + d, 16 * (x / n), n);
  }

  // A number in hexadecimal digits, as a host writes it.
  function Digits(n: nat): (s: seq<Octet>)
    ensures |s| > 0
  {
    if n < 16 then [NibToHex(n)] else Digits(n / 16) + [NibToHex(n)]
  }

  // Reading such a number in the middle of a text, up to what is no digit, gives it back.
  lemma {:induction false} NumberRead(pre: seq<Octet>, n: nat, rest: seq<Octet>)
    ensures var s, i, j := pre + Digits(n) + rest, |pre|, |pre| + |Digits(n)|;
      (forall k :: i <= k < j ==> IsHex(s[k])) && Value(s, i, j) == n
    decreases n
  {
    hide HexToNib, NibToHex;
    var s, i, j := pre + Digits(n) + rest, |pre|, |pre| + |Digits(n)|;
    assert s[j - 1] == NibToHex(n);
    if n < 16 {
      assert Value(s, i, i) == 0;
    } else {
      NumberRead(pre, n / 16, [NibToHex(n)] + rest);
      assert s == pre + Digits(n / 16) + ([NibToHex(n)] + rest);
    }
  }

  lemma {:induction false} RunEnds(s: seq<Octet>, i: nat, j: nat)
    requires i <= j <= |s| && (forall k :: i <= k < j ==> IsHex(s[k])) && (j < |s| ==> !IsHex(s[j]))
    ensures RunEnd(s, i) == j
    decreases j - i
  {
    hide HexToNib;
    if i < j { RunEnds(s, i + 1, j); }
  }

  // The bytes of a number, lowest first.
  function LittleEndian(x: nat, n: nat): (bytes: seq<bv8>)
    ensures |bytes| == n
    decreases n
  {
    if n == 0 then [] else [Bits.Cut(x)] + LittleEndian(x / 0x100, n - 1)
  }

  function Low4(v: bv32): bv32 { v & 15 }
  function Raised(v: bv32): bv32 { Bits.Up4(Shr4(v)) }

  lemma NibblePattern(v: bv32)
    ensures v == Bits.Or(Raised(v), Low4(v)) && Bits.Apart(Raised(v), Low4(v))
    ensures Bits.Under(Shr4(v), 0x1000_0000)
  {
  }

  lemma LowNibble(v: bv32)
    ensures ToWord(Low4(v)) < 16 && ToWord(Low4(v)) == (v & 15) as int
  {
    hide Pow2;
  }

  lemma NibbleSplit(v: bv32)
    ensures (v & 15) as int == ToWord(v) % 16 && ToWord(Shr4(v)) == ToWord(v) / 16
  {
    hide *;
    NibblePattern(v);
    LowNibble(v);
    Bits.Up4Number(Shr4(v));
    RaisedIs(v);
    Bits.JoinAdds(Raised(v), Low4(v));
    DivMod(ToWord(v), 16, ToWord(Shr4(v)), ToWord(Low4(v)));
  }

  lemma RaisedIs(v: bv32)
    ensures Raised(v) == Bits.Up4(Shr4(v))
  {
  }

  lemma DigitNumber(v: bv32)
    ensures Digit(v) == NibToHex(ToWord(v))
  {
    hide ToWord, HexToNib, Pow2, Shr4;
    NibbleSplit(v);
  }

  lemma ByteShifted(v: bv32)
    ensures ToWord(Shr8(v)) == ToWord(v) / 0x100
  {
    hide ToWord, Shr4, Shr8, Pow2;
    TwoShifts(v);
    NibbleSplit(v);
    NibbleSplit(Shr4(v));
  }

  lemma TwoShifts(v: bv32)
    ensures Shr8(v) == Shr4(Shr4(v))
  {
  }

  // A register's text is that of its bytes in memory order.
  lemma {:induction false} RegIsBytes(v: bv32, n: nat)
    ensures RegDigits(v, n) == Encode(LittleEndian(ToWord(v), n))
    decreases n
  {
    hide ToWord, Digit, Shr4, Shr8, HexToNib, Bits.Cut, Bits.Number8, Pow2;
    if n > 0 {
      var b := Bits.Cut(ToWord(v));
      RegIsBytes(Shr8(v), n - 1);
      ByteShifted(v);
      DigitNumber(v);
      DigitNumber(Shr4(v));
      NibbleSplit(v);
      ByteDigits(ToWord(v));
      assert LittleEndian(ToWord(v), n)[1..] == LittleEndian(ToWord(v) / 0x100, n - 1);
    }
  }

  lemma ByteDigits(x: nat)
    ensures NibToHex(Bits.Cut(x) as int / 16) == NibToHex(x / 16) && NibToHex(Bits.Cut(x) as int) == NibToHex(x)
  {
    hide Bits.Cut, NibToHex;
    Bits.CutNumber(x);
    NibblesOf(x);
    SameNibble(x % 0x100 / 16, x / 16);
    SameNibble(x % 0x100, x);
  }

  lemma NibblesOf(x: nat)
    ensures x % 0x100 / 16 % 16 == x / 16 % 16 && x % 0x100 % 16 == x % 16
  {
    var q, r := x / 0x100, x % 0x100;
    DivMod(x, 16, 16 * q + r / 16, r % 16);
    DivMod(16 * q + r / 16, 16, q, r / 16);
    DivMod(r / 16, 16, 0, r / 16);
  }

  lemma SameNibble(u: int, v: int)
    requires u % 16 == v % 16
    ensures NibToHex(u) == NibToHex(v)
  {
    hide HexToNib;
  }
}
