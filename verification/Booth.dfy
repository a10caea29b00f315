/** The radix-4 modified Booth multiplier: w/2 recoding clocks, one carry fixup, and one
    more to negate. The word width w is even; the source has w = 32. */
module Booth {
  import opened Arith
  import opened MulDivSpec
  import Radix2

  // mul_acc is read as the (w+1)-bit two's complement number it is; pmHi and pmLo are
  // the two halves of mul_pm.
  datatype Regs = Regs(acc: int, pmHi: int, pmLo: int, mcand: int, prev: bool,
                       count: nat, fixup: bool, neg: bool, negatePending: bool)
  {
    predicate Busy() { count > 0 || fixup || negatePending }

    function Read(op: MulOp): int { if op.Mul? then pmLo else pmHi }
  }

  // The value that w+1 bits keep of x.
  function Wrap(w: nat, x: int): int
  {
    (x + Pow2(w)) % (2 * Pow2(w)) - Pow2(w)
  }

  // The recoded digit of {bit1, bit0, previous bit}.
  function Digit(two: int, prev: bool): int
  {
    match (two, prev)
    case (0, true) => 1
    case (1, false) => 1
    case (1, true) => 2
    case (2, false) => -2
    case (2, true) => -1
    case (3, false) => -1
    case _ => 0
  }

  function Load(w: nat, op: MulOp, a: nat, b: nat): Regs
    requires w > 0 && a < Pow2(w) && b < Pow2(w)
  {
    var na, nb := NegA(w, op, a), NegB(w, op, b);
    Regs(0, 0, Magnitude(w, nb, b), Magnitude(w, na, a), false, w / 2, false, na != nb, false)
  }

  function Recode(w: nat, s: Regs): Regs
    requires w > 1
  {
    var sum := Wrap(w, s.acc + Digit(s.pmLo % 4, s.prev) * s.mcand);
    s.(acc := sum / 4,
       pmHi := sum / 4 % Pow2(w),
       pmLo := sum % 4 * Pow2(w - 2) + s.pmLo / 4,
       prev := s.pmLo / 2 % 2 == 1)
  }

  function Fixup(w: nat, s: Regs): Regs
  {
    if s.prev then
      s.(acc := Wrap(w, s.acc + s.mcand), pmHi := (s.acc % Pow2(w) + s.mcand) % Pow2(w))
    else
      s.(pmHi := s.acc % Pow2(w))
  }

  function Negate(w: nat, s: Regs): Regs
  {
    var square := Pow2(2 * w);
    var p := (square - (s.acc % Pow2(w) * Pow2(w) + s.pmLo)) % square;
    s.(pmHi := p / Pow2(w), pmLo := p % Pow2(w))
  }

  // One clock without a load.
  function Tick(w: nat, s: Regs): Regs
    requires w > 1
  {
    if s.count > 0 then
      Recode(w, s).(count := s.count - 1, fixup := s.count == 1 || s.fixup)
    else if s.fixup then
      Fixup(w, s).(fixup := false, negatePending := s.neg)
    else if s.negatePending then
      Negate(w, s).(negatePending := false)
    else s
  }

  function Ticks(w: nat, s: Regs, k: nat): Regs
    requires w > 1
  {
    if k == 0 then s else Tick(w, Ticks(w, s, k - 1))
  }

  /** The register block of the source. */
  class Multiplier {
    const w: nat
    var acc: int
    var pmHi: int
    var pmLo: int
    var mcand: int
    var prev: bool
    var count: nat
    var fixup: bool
    var neg: bool
    var negatePending: bool

    function State(): Regs
      reads this
    {
      Regs(acc, pmHi, pmLo, mcand, prev, count, fixup, neg, negatePending)
    }

    constructor (w: nat)
      ensures this.w == w && !State().Busy()
    {
      this.w := w;
      count, fixup, negatePending := 0, false, false;
    }

    method Clock(load: bool, op: MulOp, a: nat, b: nat)
      requires w > 1 && a < Pow2(w) && b < Pow2(w)
      modifies this
      ensures State() == if load then Load(w, op, a, b) else Tick(w, old(State()))
    {
      hide Load, Recode, Fixup, Negate;
      if load {
        ClockLoad(op, a, b);
      } else if count > 0 {
        ClockRecode();
        if count == 1 { fixup := true; }
        count := count - 1;
      } else if fixup {
        ClockFixup();
        fixup, negatePending := false, neg;
      } else if negatePending {
        ClockNegate();
        negatePending := false;
      }
    }

    method ClockLoad(op: MulOp, a: nat, b: nat)
      requires w > 1 && a < Pow2(w) && b < Pow2(w)
      modifies this
      ensures State() == Load(w, op, a, b)
    {
      var sign1, sign2 := NegA(w, op, a), NegB(w, op, b);
      pmHi, pmLo := 0, Magnitude(w, sign2, b);
      acc, mcand := 0, Magnitude(w, sign1, a);
      count, neg := w / 2, sign1 != sign2;
      negatePending, fixup, prev := false, false, false;
    }

    method ClockRecode()
      requires w > 1
      modifies this`acc, this`pmHi, this`pmLo, this`prev
      ensures State() == Recode(w, old(State()))
    {
      hide Pow2, Wrap, Digit;
      var sum := Wrap(w, acc + Digit(pmLo % 4, prev) * mcand);
      acc := sum / 4;
      prev := pmLo / 2 % 2 == 1;
      pmHi, pmLo := sum / 4 % Pow2(w), sum % 4 * Pow2(w - 2) + pmLo / 4;
    }

    method ClockFixup()
      modifies this`acc, this`pmHi
      ensures State() == Fixup(w, old(State()))
    {
      hide Pow2, Wrap;
      if prev {
        pmHi := (acc % Pow2(w) + mcand) % Pow2(w);
        acc := Wrap(w, acc + mcand);
      } else {
        pmHi := acc % Pow2(w);
      }
    }

    method ClockNegate()
      modifies this`pmHi, this`pmLo
      ensures State() == Negate(w, old(State()))
    {
      hide Pow2;
      var square := Pow2(2 * w);
      var p := (square - (acc % Pow2(w) * Pow2(w) + pmLo)) % square;
      pmHi, pmLo := p / Pow2(w), p % Pow2(w);
    }
  }

  // The signed reading of the low 2k bits of b.
  function SignedLow(b: nat, k: nat): int
  {
    var r := b % Pow2(2 * k);
    if 2 * r >= Pow2(2 * k) then r - Pow2(2 * k) else r
  }

  // The sums before the first k shifts all fit the (w+1)-bit accumulator.
  ghost predicate Fits(w: nat, m: int, b: nat, k: nat)
  {
    forall j: nat {:trigger SignedLow(b, j + 1)} :: j < k ==>
      -Pow2(w) * Pow2(2 * j) <= m * SignedLow(b, j + 1) < Pow2(w) * Pow2(2 * j)
  }

  // After k recodings: t is what an accumulator of unbounded width would hold, low the 2k
  // product bits shifted out so far, and the rest of the multiplier is still in pmLo.
  ghost predicate Shifted(w: nat, m: int, b: nat, k: nat, s: Regs, t: int, low: int)
  {
    && 2 * k <= w
    && s.mcand == m
    && s.prev == (2 * (b % Pow2(2 * k)) >= Pow2(2 * k))
    && m * SignedLow(b, k) == t * Pow2(2 * k) + low
    && 0 <= low < Pow2(2 * k)
    && s.pmLo == low * Pow2(w - 2 * k) + b / Pow2(2 * k)
  }

  // What wrapping has lost by then: the hardware accumulator agrees with t modulo
  // 2^(w+1-2k), and e is zero only while every sum has fitted.
  ghost predicate Lost(w: nat, m: int, b: nat, k: nat, s: Regs, t: int, e: int)
  {
    && 2 * k <= w
    && s.acc == t + 2 * Pow2(w - 2 * k) * e
    && -Pow2(w) <= 4 * s.acc < Pow2(w)
    && -Pow2(2 * k) < 3 * e < Pow2(2 * k)
    && (e == 0 <==> Fits(w, m, b, k))
  }

  // The next two multiplier bits sit at the bottom of pmLo ...
  lemma LowBits(low: int, r: int, q: int)
    ensures (low * (4 * r) + q) % 4 == q % 4
    ensures (low * (4 * r) + q) / 4 == low * r + q / 4
    ensures ((low * (4 * r) + q) / 2 % 2 == 1) == (q % 4 >= 2)
  {
    var x := low * r;
    assert low * (4 * r) == x * 4;
    DivMod(x * 4 + q, 4, x + q / 4, q % 4);
    DivMod(x * 4 + q, 2, 2 * x + q / 2, q % 2);
    ModShift(q / 2, x, 2);
  }

  // ... and recoding them extends the signed reading of b by one base-4 digit.
  lemma NextDigit(b: nat, k: nat)
    ensures var p, q := Pow2(2 * k), b / Pow2(2 * k);
      && (2 * (b % Pow2(2 * (k + 1))) >= Pow2(2 * (k + 1))) == (q % 4 >= 2)
      && b / Pow2(2 * (k + 1)) == q / 4
      && SignedLow(b, k + 1) == SignedLow(b, k) + Digit(q % 4, 2 * (b % p) >= p) * p
  {
    var p := Pow2(2 * k);
    assert Pow2(2 * (k + 1)) == p * 4;
    DigitSplit(b, p, 4);
    TwoBits(b / p % 4, b % p, p);
  }

  // Reading {bits, low part} as signed, digit by digit.
  lemma TwoBits(v: int, r: int, p: int)
    requires 0 <= v < 4 && 0 <= r < p
    ensures (2 * (v * p + r) >= 4 * p) == (v >= 2)
    ensures (if 2 * (v * p + r) >= 4 * p then v * p + r - 4 * p else v * p + r)
         == (if 2 * r >= p then r - p else r) + Digit(v, 2 * r >= p) * p
  {
    match v
    case 0 =>
    case 1 =>
    case 2 =>
    case 3 =>
  }

  // Wrapping moves a sum of this size by at most one modulus, and not at all when it fits.
  lemma WrapOnce(w: nat, x: int) returns (o: int)
    requires 4 * x < 9 * Pow2(w) && 4 * x >= -9 * Pow2(w)
    ensures Wrap(w, x) == x + 2 * Pow2(w) * o
    ensures -1 <= o <= 1 && -Pow2(w) <= Wrap(w, x) < Pow2(w)
    ensures o == 0 <==> -Pow2(w) <= x < Pow2(w)
  {
    var n := Pow2(w);
    o := if x < -n then 1 else if x >= n then -1 else 0;
    DivMod(x + n, 2 * n, -o, x + n + 2 * n * o);
  }

  // What one recoding, adding c to the accumulator, does to the sum and to the loss.
  lemma SumStep(w: nat, acc: int, t: int, c: int, e: int, p: int, r: int)
      returns (o: int)
    requires Pow2(w) == p * (4 * r)
    requires acc == t + 2 * (4 * r) * e
    requires -Pow2(w) <= 4 * acc < Pow2(w) && -2 * Pow2(w) < c < 2 * Pow2(w)
    ensures Wrap(w, acc + c) % 4 == (t + c) % 4
    ensures Wrap(w, acc + c) / 4 == (t + c) / 4 + 2 * r * (e + p * o)
    ensures -Pow2(w) <= 4 * (Wrap(w, acc + c) / 4) < Pow2(w)
    ensures -1 <= o <= 1
    ensures e == 0 ==> (o == 0 <==> -Pow2(w) <= t + c < Pow2(w))
  {
    hide Pow2, Wrap;
    o := WrapOnce(w, acc + c);
    Quarter(Wrap(w, acc + c), t + c, Pow2(w), e, p, r, o);
  }

  lemma DigitBound(v: int, prev: bool, m: int, n: int)
    requires 0 <= m < n
    ensures -2 * n < Digit(v, prev) * m < 2 * n
  {
    var d := Digit(v, prev);
    match d case -2 => case -1 => case 0 => case 1 => case 2 =>
  }

  // A loss of 8·r·e' is invisible in the two bits shifted out.
  lemma Quarter(sum: int, v: int, n: int, e: int, p: int, r: int, o: int)
    requires n == p * (4 * r)
    requires sum == v + 2 * (4 * r) * e + 2 * n * o
    requires -n <= sum < n
    ensures sum % 4 == v % 4
    ensures sum / 4 == v / 4 + 2 * r * (e + p * o)
    ensures -n <= 4 * (sum / 4) < n
  {
    var e' := e + p * o;
    assert n == 4 * (p * r);
    assert 2 * n * o == 8 * r * (p * o);
    assert sum == v + (2 * r * e') * 4;
    DivMod(sum, 4, v / 4 + 2 * r * e', v % 4);
  }

  // Fitting, said of the sum t + d·m itself or of m times the signed prefix it stands for.
  lemma FitsStep(n: int, p: int, v: int, low: int)
    requires p > 0 && 0 <= low < p
    ensures -n <= v < n <==> -n * p <= v * p + low < n * p
  {
    if v < n { MulMono(v + 1, n, p); }
    if v >= n { MulMono(n, v, p); }
    if v < -n { MulMono(v + 1, -n, p); }
    if v >= -n { MulMono(-n, v, p); }
  }

  lemma FitsExtends(w: nat, m: int, b: nat, k: nat)
    ensures Fits(w, m, b, k + 1) <==>
      (Fits(w, m, b, k) && -Pow2(w) * Pow2(2 * k) <= m * SignedLow(b, k + 1) < Pow2(w) * Pow2(2 * k))
  {
  }

  // The loss keeps its sign once it is not zero.
  lemma LossGrows(e: int, o: int, p: int)
    requires p > 0 && -p < 3 * e < p && -1 <= o <= 1
    ensures -4 * p < 3 * (e + p * o) < 4 * p
    ensures e + p * o == 0 <==> e == 0 && o == 0
  {
    match o case -1 => case 0 => case 1 =>
  }

  // The sizes of step k: 2^w = 4^k · 4r.
  lemma Sizes(w: nat, k: nat)
    requires 2 * (k + 1) <= w
    ensures var p, r := Pow2(2 * k), Pow2(w - 2 * (k + 1));
      && Pow2(w - 2 * k) == 4 * r && Pow2(2 * (k + 1)) == 4 * p
      && Pow2(w) == p * (4 * r) && Pow2(w - 2) == p * r
  {
    Pow2Add(2 * k, w - 2 * k);
    Pow2Add(2 * k, w - 2 * (k + 1));
  }

  // The product with one more signed digit of b.
  lemma PrefixProduct(b: nat, k: nat, m: int, t: int, low: int)
    requires m * SignedLow(b, k) == t * Pow2(2 * k) + low
    ensures var p := Pow2(2 * k);
      m * SignedLow(b, k + 1) == (t + Digit(b / p % 4, 2 * (b % p) >= p) * m) * p + low
  {
    var p := Pow2(2 * k);
    var d := Digit(b / p % 4, 2 * (b % p) >= p);
    NextDigit(b, k);
    Distribute(m, SignedLow(b, k), d, p, t);
  }

  lemma Distribute(m: int, x: int, d: int, p: int, t: int)
    ensures m * (x + d * p) - m * x == (t + d * m) * p - t * p
  {
    assert m * (x + d * p) == m * x + d * m * p;
    assert (t + d * m) * p == t * p + d * m * p;
  }

  lemma Recoding(w: nat, m: int, b: nat, k: nat, s: Regs, t: int, low: int, e: int)
      returns (t': int, low': int, e': int)
    requires 2 * (k + 1) <= w && 0 <= m < Pow2(w)
    requires s.count > 0 && Shifted(w, m, b, k, s, t, low) && Lost(w, m, b, k, s, t, e)
    ensures Shifted(w, m, b, k + 1, Tick(w, s), t', low')
    ensures Lost(w, m, b, k + 1, Tick(w, s), t', e')
  {
    hide Pow2, Wrap, SignedLow, Digit, Fits;
    var p, r, q := Pow2(2 * k), Pow2(w - 2 * (k + 1)), b / Pow2(2 * k);
    var d := Digit(q % 4, s.prev);
    var v := t + d * m;
    Sizes(w, k);
    LowBits(low, r, q);
    DigitBound(q % 4, s.prev, m, Pow2(w));
    var o := SumStep(w, s.acc, t, d * m, e, p, r);
    t', low', e' := v / 4, v % 4 * p + low, e + p * o;
    PrefixProduct(b, k, m, t, low);
    assert Lost(w, m, b, k + 1, Tick(w, s), t', e') by {
      LossGrows(e, o, p);
      FitsStep(Pow2(w), p, v, low);
      FitsExtends(w, m, b, k);
    }
    assert Shifted(w, m, b, k + 1, Tick(w, s), t', low') by {
      NextDigit(b, k);
      Carry(v, p, r, low, q);
    }
  }

  // The bits shifted out of the sum continue the product; the multiplier moves down.
  lemma Carry(v: int, p: int, r: int, low: int, q: int)
    requires p > 0 && 0 <= low < p
    ensures v * p + low == v / 4 * (4 * p) + (v % 4 * p + low)
    ensures 0 <= v % 4 * p + low < 4 * p
    ensures v % 4 * (p * r) + (low * r + q / 4) == (v % 4 * p + low) * r + q / 4
  {
    assert v == v / 4 * 4 + v % 4;
    assert (v / 4 * 4 + v % 4) * p == v / 4 * (4 * p) + v % 4 * p;
    MulMono(v % 4, 3, p);
    MulMono(0, v % 4, p);
  }

  // A multiplication in progress, as a load leaves it.
  predicate Fresh(w: nat, s: Regs)
  {
    && w > 1 && w % 2 == 0
    && s.count == w / 2 && !s.fixup && !s.negatePending && !s.prev
    && s.acc == 0 && 0 <= s.pmLo < Pow2(w) && 0 <= s.mcand < Pow2(w)
  }

  // The accumulator after k recodings, for every multiplicand.
  lemma {:induction false} AfterRecodings(w: nat, s: Regs, k: nat)
      returns (t: int, low: int, e: int)
    requires Fresh(w, s) && 2 * k <= w
    ensures Shifted(w, s.mcand, s.pmLo, k, Ticks(w, s, k), t, low)
    ensures Lost(w, s.mcand, s.pmLo, k, Ticks(w, s, k), t, e)
    ensures var u := Ticks(w, s, k);
      u.count == w / 2 - k && u.fixup == (2 * k == w) && u.neg == s.neg && !u.negatePending
  {
    hide Shifted, Lost, SignedLow;
    if k == 0 {
      BeforeRecodings(w, s);
      t, low, e := 0, 0, 0;
    } else {
      t, low, e := AfterRecodings(w, s, k - 1);
      t, low, e := Recoding(w, s.mcand, s.pmLo, k - 1, Ticks(w, s, k - 1), t, low, e);
    }
  }

  lemma BeforeRecodings(w: nat, s: Regs)
    requires Fresh(w, s)
    ensures Shifted(w, s.mcand, s.pmLo, 0, s, 0, 0) && Lost(w, s.mcand, s.pmLo, 0, s, 0, 0)
  {
    DivMod(s.pmLo, 1, s.pmLo, 0);
  }

  // A multiplicand of at most 2^(w-1), which is what a magnitude is, never overflows the
  // accumulator: every sum lies in [-2m, 2m).
  lemma {:induction false} SmallMultiplicandFits(w: nat, m: int, b: nat, k: nat)
    requires w > 0 && 0 <= m <= Pow2(w - 1) && 2 * k <= w
    ensures Fits(w, m, b, k)
  {
    forall j: nat {:trigger SignedLow(b, j + 1)} | j < k
      ensures -Pow2(w) * Pow2(2 * j) <= m * SignedLow(b, j + 1) < Pow2(w) * Pow2(2 * j)
    {
      var h, p, x := Pow2(w - 1), Pow2(2 * j), SignedLow(b, j + 1);
      assert Pow2(2 * (j + 1)) == 4 * p;
      assert -2 * p <= x < 2 * p;
      Bounded(m, h, x, p);
    }
  }

  lemma Bounded(m: int, h: int, x: int, p: int)
    requires 0 <= m <= h && 0 < h && -2 * p <= x < 2 * p
    ensures -(2 * h) * p <= m * x < (2 * h) * p
  {
    if x >= 0 {
      MulMono(m, h, x);
      MulStrict(x, 2 * p, h);
    } else {
      MulMono(m, h, -x);
      MulMono(-x, 2 * p, h);
      assert m * x == -(m * -x) <= 0;
    }
  }

  // With such a multiplicand the accumulator is floor(m·s / 4^k) after k recodings, s
  // being the signed reading of the low 2k multiplier bits.
  lemma AccumulatorExact(w: nat, s: Regs, k: nat)
    requires Fresh(w, s) && 2 * k <= w && s.mcand <= Pow2(w - 1)
    ensures Ticks(w, s, k).acc == s.mcand * SignedLow(s.pmLo, k) / Pow2(2 * k)
  {
    hide Fits;
    var t, low, e := AfterRecodings(w, s, k);
    SmallMultiplicandFits(w, s.mcand, s.pmLo, k);
    DivMod(s.mcand * SignedLow(s.pmLo, k), Pow2(2 * k), t, low);
  }

  // For every multiplicand the accumulator is that value modulo 2^(w+1-2k).
  lemma AccumulatorModulo(w: nat, s: Regs, k: nat)
    requires Fresh(w, s) && 2 * k <= w
    ensures (Ticks(w, s, k).acc - s.mcand * SignedLow(s.pmLo, k) / Pow2(2 * k)) % (2 * Pow2(w - 2 * k)) == 0
  {
    var t, low, e := AfterRecodings(w, s, k);
    DivMod(s.mcand * SignedLow(s.pmLo, k), Pow2(2 * k), t, low);
    DivMod(e * (2 * Pow2(w - 2 * k)), 2 * Pow2(w - 2 * k), e, 0);
    assert 2 * Pow2(w - 2 * k) * e == e * (2 * Pow2(w - 2 * k));
  }

  // After the last recoding: c is the multiplicand still owed for the top bit of b.
  lemma AllDigits(w: nat, s: Regs) returns (t: int, c: int, e: int)
    requires Fresh(w, s)
    ensures var u, n := Ticks(w, s, w / 2), Pow2(w);
      && s.mcand * s.pmLo == (t + c) * n + u.pmLo && 0 <= u.pmLo < n
      && u.acc == t + 2 * e && c == (if u.prev then u.mcand else 0)
      && -n < 3 * e < n
      && u.count == 0 && u.fixup && u.neg == s.neg && !u.negatePending
    ensures e == 0 <==> Fits(w, s.mcand, s.pmLo, w / 2)
  {
    hide Fits, Shifted, SignedLow;
    var low;
    t, low, e := AfterRecodings(w, s, w / 2);
    c := AllShifted(w, s.mcand, s.pmLo, Ticks(w, s, w / 2), t, low);
  }

  lemma AllShifted(w: nat, m: int, b: nat, u: Regs, t: int, low: int) returns (c: int)
    requires w % 2 == 0 && b < Pow2(w) && Shifted(w, m, b, w / 2, u, t, low)
    ensures c == if u.prev then u.mcand else 0
    ensures m * b == (t + c) * Pow2(w) + u.pmLo && 0 <= u.pmLo < Pow2(w)
  {
    c := if u.prev then m else 0;
    DivMod(b, Pow2(w), 0, b);
    assert m * SignedLow(b, w / 2) == t * Pow2(w) + low;
    FullPrefix(m, b, Pow2(w), u.prev);
    assert (t + c) * Pow2(w) == t * Pow2(w) + c * Pow2(w);
  }

  // The fixup clock: the low word is right for every multiplicand, the high word exactly
  // when no sum has overflowed.
  lemma AfterFixup(w: nat, s: Regs)
    requires Fresh(w, s)
    ensures var u, p := Ticks(w, s, w / 2 + 1), s.mcand * s.pmLo;
      && u.pmLo == p % Pow2(w)
      && u.acc % Pow2(w) == u.pmHi
      && u.count == 0 && !u.fixup && u.negatePending == s.neg
    ensures Ticks(w, s, w / 2 + 1).pmHi == s.mcand * s.pmLo / Pow2(w) <==> Fits(w, s.mcand, s.pmLo, w / 2)
  {
    hide Pow2, Fits;
    var n := Pow2(w);
    var t, c, e := AllDigits(w, s);
    var v := Ticks(w, s, w / 2);
    Radix2.ProductFits(w, s.mcand, s.pmLo);
    FixupWords(s.mcand * s.pmLo, t + c, v.pmLo, e, n);
    AddLow(v.acc, c, n);
    WrapKeepsLow(w, v.acc + v.mcand);
  }

  lemma FixupWords(p: int, h: int, low: int, e: int, n: int)
    requires 0 <= p < n * n && p == h * n + low && 0 <= low < n && -n < 3 * e < n
    ensures low == p % n
    ensures (h + 2 * e) % n == p / n <==> e == 0
  {
    DivMod(p, n, h, low);
    QuotientRange(p, n, 0, n);
    HighWord(h, e, n);
  }

  // Once all bits of b are in, its signed reading is b, less 2^w when the top bit is set.
  lemma FullPrefix(m: int, b: int, n: int, top: bool)
    ensures m * (if top then b - n else b) == m * b - (if top then m else 0) * n
  {
    assert m * (b - n) == m * b - m * n;
  }

  lemma WrapKeepsLow(w: nat, x: int)
    ensures Wrap(w, x) % Pow2(w) == x % Pow2(w)
  {
    var n := Pow2(w);
    var q := (x + n) / (2 * n);
    assert x + n == q * (2 * n) + (x + n) % (2 * n);
    assert Wrap(w, x) == x + (-2 * q) * n;
    ModShift(x, -2 * q, n);
  }

  lemma AddLow(x: int, c: int, n: int)
    requires n > 0
    ensures (x % n + c) % n == (x + c) % n
  {
    assert x == x / n * n + x % n;
    ModShift(x % n + c, x / n, n);
  }

  // A loss of 2e shows in the high word unless it is zero.
  lemma HighWord(h: int, e: int, n: int)
    requires 0 <= h < n && -n < 3 * e < n
    ensures (h + 2 * e) % n == h <==> e == 0
  {
    if 0 <= h + 2 * e < n {
      DivMod(h + 2 * e, n, 0, h + 2 * e);
    } else if h + 2 * e < 0 {
      DivMod(h + 2 * e, n, -1, h + 2 * e + n);
    } else {
      DivMod(h + 2 * e, n, 1, h + 2 * e - n);
    }
  }

  // Busy for w/2 + 1 clocks, one more to negate.
  lemma Duration(w: nat, s: Regs)
    requires Fresh(w, s)
    ensures var n := w / 2 + 1 + if s.neg then 1 else 0;
      && (forall k :: 0 <= k < n ==> Ticks(w, s, k).Busy())
      && !Ticks(w, s, n).Busy()
  {
    forall k | 0 <= k <= w / 2
      ensures Ticks(w, s, k).Busy()
    {
      var t, low, e := AfterRecodings(w, s, k);
    }
    AfterFixup(w, s);
    if s.neg {
      assert Ticks(w, s, w / 2 + 2) == Tick(w, Ticks(w, s, w / 2 + 1));
    }
  }

  function BusyClocks(w: nat, op: MulOp, a: nat, b: nat): nat
    requires w > 0
  {
    w / 2 + 1 + if NegA(w, op, a) != NegB(w, op, b) then 1 else 0
  }

  // MUL, MULH and MULHSU of section 7.1, for all operands.
  lemma Correct(w: nat, op: MulOp, a: nat, b: nat)
    requires w > 1 && w % 2 == 0 && a < Pow2(w) && b < Pow2(w)
    requires !op.Mulhu?
    ensures var s, n := Load(w, op, a, b), BusyClocks(w, op, a, b);
      && (forall k :: 0 <= k < n ==> Ticks(w, s, k).Busy())
      && !Ticks(w, s, n).Busy()
      && Ticks(w, s, n).Read(op) == MulResult(w, op, a, b)
  {
    var s := Load(w, op, a, b);
    Duration(w, s);
    AfterFixup(w, s);
    if op.Mul? {
    } else {
      SmallMultiplicandFits(w, s.mcand, s.pmLo, w / 2);
      SignedHigh(w, op, a, b);
    }
  }

  // The high word after the optional negation.
  lemma SignedHigh(w: nat, op: MulOp, a: nat, b: nat)
    requires w > 1 && w % 2 == 0 && a < Pow2(w) && b < Pow2(w)
    requires !op.Mul?
    requires var s := Load(w, op, a, b); Fits(w, s.mcand, s.pmLo, w / 2)
    ensures Ticks(w, Load(w, op, a, b), BusyClocks(w, op, a, b)).pmHi == MulResult(w, op, a, b)
  {
    hide Pow2, Fits, Load;
    var s := Load(w, op, a, b);
    Loaded(w, op, a, b);
    var p := s.mcand * s.pmLo;
    Radix2.ProductFits(w, s.mcand, s.pmLo);
    Negated(w, s, p);
    SignedFromMagnitudes(w, op, a, b, p, if s.neg then Negate2(w, p) else p);
  }

  lemma Loaded(w: nat, op: MulOp, a: nat, b: nat)
    requires w > 1 && w % 2 == 0 && a < Pow2(w) && b < Pow2(w)
    ensures var s := Load(w, op, a, b);
      && Fresh(w, s)
      && s.mcand == Magnitude(w, NegA(w, op, a), a)
      && s.pmLo == Magnitude(w, NegB(w, op, b), b)
      && s.neg == (NegA(w, op, a) != NegB(w, op, b))
  {
  }

  // The negation clock negates the 2w-bit product that the fixup has left.
  lemma Negated(w: nat, s: Regs, p: nat)
    requires Fresh(w, s) && p == s.mcand * s.pmLo && p < Pow2(2 * w)
    requires Fits(w, s.mcand, s.pmLo, w / 2)
    ensures Ticks(w, s, w / 2 + 1 + if s.neg then 1 else 0).pmHi
         == (if s.neg then Negate2(w, p) else p) / Pow2(w)
  {
    hide Pow2, Fits, Ticks;
    AfterFixup(w, s);
    var u := Ticks(w, s, w / 2 + 1);
    assert u.acc % Pow2(w) * Pow2(w) + u.pmLo == p;
    if s.neg {
      NextTick(w, s, w / 2 + 1);
    }
  }

  lemma NextTick(w: nat, s: Regs, k: nat)
    requires w > 1
    ensures Ticks(w, s, k + 1) == Tick(w, Ticks(w, s, k))
  {
  }

  // MULHU returns the high word exactly when no signed prefix of rs2 makes rs1 overflow.
  lemma MulhuExact(w: nat, a: nat, b: nat)
    requires w > 1 && w % 2 == 0 && a < Pow2(w) && b < Pow2(w)
    ensures Ticks(w, Load(w, Mulhu, a, b), BusyClocks(w, Mulhu, a, b)).Read(Mulhu) == MulResult(w, Mulhu, a, b)
       <==> Fits(w, a, b, w / 2)
  {
    hide Pow2, Fits;
    AfterFixup(w, Load(w, Mulhu, a, b));
    Radix2.ProductFits(w, a, b);
    HighOfPositive(Pow2(w), a * b);
  }

  // An overflowing pair, at every even width from 4 up: the largest word times 2.
  lemma MulhuFails(w: nat)
    requires w > 3 && w % 2 == 0
    ensures Ticks(w, Load(w, Mulhu, Pow2(w) - 1, 2), BusyClocks(w, Mulhu, Pow2(w) - 1, 2)).Read(Mulhu)
         != MulResult(w, Mulhu, Pow2(w) - 1, 2)
  {
    hide Fits;
    MulhuExact(w, Pow2(w) - 1, 2);
    LargestOverflows(w);
  }

  lemma LargestOverflows(w: nat)
    requires w > 3
    ensures !Fits(w, Pow2(w) - 1, 2, w / 2)
  {
    SignedTwo();
    BigWord(w);
    hide Pow2, SignedLow, Fits;
    DigitFits(w, Pow2(w) - 1, 2, w / 2, 0);
    TimesTwo(Pow2(w), Pow2(2 * 0), SignedLow(2, 0 + 1));
  }

  lemma DigitFits(w: nat, m: int, b: nat, k: nat, j: nat)
    requires j < k
    ensures Fits(w, m, b, k) ==> -Pow2(w) * Pow2(2 * j) <= m * SignedLow(b, j + 1)
  {
    hide Pow2, SignedLow;
  }

  lemma TimesTwo(n: int, one: int, x: int)
    requires n > 2 && one == 1 && x == -2
    ensures !(-n * one <= (n - 1) * x)
  {
  }

  lemma SignedTwo()
    ensures SignedLow(2, 0 + 1) == -2 && Pow2(2 * 0) == 1
  {
    assert Pow2(2) == 4;
  }

  lemma BigWord(w: nat)
    requires w > 3
    ensures Pow2(w) > 2
  {
    assert Pow2(w) == 4 * Pow2(w - 2);
  }
}
