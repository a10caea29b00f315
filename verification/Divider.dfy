/** The restoring divider: one quotient bit a clock, most significant first, w clocks. */
module Divider {
  import opened Arith
  import opened MulDivSpec

  datatype Regs = Regs(dividend: int, divisor: int, quotient: int, msk: int, result: int)
  {
    // div_busy: some bit of quotient_msk is set.
    predicate Busy() { msk != 0 }
  }

  predicate IsSigned(op: DivOp) { op.Div? || op.Rem? }
  predicate IsRem(op: DivOp) { op.Rem? || op.Remu? }

  predicate Negative(w: nat, op: DivOp, x: nat)
    requires w > 0
  {
    IsSigned(op) && x >= Pow2(w - 1)
  }

  // Bitwise or with a mask of at most one bit.
  function OrBit(q: int, m: int): int
  {
    if m != 0 && q / m % 2 == 0 then q + m else q
  }

  function Load(w: nat, op: DivOp, a: nat, b: nat, s: Regs): Regs
    requires w > 0 && a < Pow2(w) && b < Pow2(w)
  {
    Regs(Magnitude(w, Negative(w, op, a), a), Magnitude(w, Negative(w, op, b), b) * Pow2(w - 1),
         0, Pow2(w - 1), Tick(op, s).result)
  }

  // One clock without a load. The unit never stops: it keeps shifting and subtracting.
  function Tick(op: DivOp, s: Regs): Regs
  {
    var step := s.divisor <= s.dividend;
    var dividend := if step then s.dividend - s.divisor else s.dividend;
    var quotient := if step then OrBit(s.quotient, s.msk) else s.quotient;
    Regs(dividend, s.divisor / 2, quotient, s.msk / 2, if IsRem(op) then dividend else quotient)
  }

  function Ticks(op: DivOp, s: Regs, k: nat): Regs
  {
    if k == 0 then s else Tick(op, Ticks(op, s, k - 1))
  }

  // The word handed to the write-back mux: divResult, negated when div_sign is set.
  function Read(w: nat, op: DivOp, a: nat, b: nat, s: Regs): int
    requires w > 0 && a < Pow2(w) && b < Pow2(w)
  {
    var na, nb := a >= Pow2(w - 1), b >= Pow2(w - 1);
    var sign := IsSigned(op) && if IsRem(op) then na else na != nb && b != 0;
    if sign then (-s.result) % Pow2(w) else s.result
  }

  /** The register block of the source. */
  class Divider {
    const w: nat
    var dividend: int
    var divisor: int
    var quotient: int
    var msk: int
    var result: int

    function State(): Regs
      reads this
    {
      Regs(dividend, divisor, quotient, msk, result)
    }

    // Nothing here has a reset; msk is what the mask happens to hold.
    constructor (w: nat, msk: nat)
      ensures this.w == w && State().msk == msk
    {
      this.w := w;
      this.msk := msk;
    }

    method Clock(load: bool, op: DivOp, a: nat, b: nat)
      requires w > 0 && a < Pow2(w) && b < Pow2(w)
      modifies this
      ensures State() == if load then Load(w, op, a, b, old(State())) else Tick(op, old(State()))
    {
      var dividendN, quotientN := dividend, quotient;
      if divisor <= dividend {
        dividendN := dividend - divisor;
        quotientN := OrBit(quotient, msk);
      }
      result := if IsRem(op) then dividendN else quotientN;
      if load {
        dividend := Magnitude(w, Negative(w, op, a), a);
        divisor := Magnitude(w, Negative(w, op, b), b) * Pow2(w - 1);
        quotient := 0;
        msk := Pow2(w - 1);
      } else {
        dividend := dividendN;
        divisor := divisor / 2;
        quotient := quotientN;
        msk := msk / 2;
      }
    }
  }

  /* After k steps of dividing x by y: the quotient has its top k bits, c of them counted in
     units of 2^(w-k), and what is left of x is below y·2^(w-k). Dividing by zero sets
     every quotient bit and subtracts nothing. */
  ghost predicate Divided(w: nat, x: int, y: int, k: nat, s: Regs, c: int)
  {
    && k <= w
    && 0 <= s.dividend && s.dividend + s.quotient * y == x
    && s.quotient == c * Pow2(w - k) && 0 <= c < Pow2(k)
    && (y > 0 ==> s.dividend < y * Pow2(w - k))
    && (y == 0 ==> c == Pow2(k) - 1)
    && s.msk == Pow2(w - k) / 2
    && s.divisor == (if k < w then y * Pow2(w - k - 1) else y / 2)
  }

  lemma DivideStep(w: nat, op: DivOp, x: int, y: int, k: nat, s: Regs, c: int) returns (c': int)
    requires k < w && 0 <= y && Divided(w, x, y, k, s, c)
    ensures Divided(w, x, y, k + 1, Tick(op, s), c')
  {
    hide Pow2;
    var p := Pow2(w - k - 1);
    Halved(w, k, y);
    c' := QuotientBit(c, p, s.quotient, s.divisor <= s.dividend);
    Subtract(s.quotient, p, y);
  }

  // The mask bit is clear in the quotient so far, so or-ing it in adds it.
  lemma QuotientBit(c: int, p: int, q: int, fits: bool) returns (c': int)
    requires p > 0 && q == c * (2 * p)
    ensures c' == if fits then 2 * c + 1 else 2 * c
    ensures (if fits then OrBit(q, p) else q) == c' * p
    ensures OrBit(q, p) == q + p
  {
    c' := if fits then 2 * c + 1 else 2 * c;
    assert q == 2 * c * p && (2 * c + 1) * p == 2 * c * p + p;
    DivMod(q, p, 2 * c, 0);
  }

  lemma Subtract(q: int, p: int, y: int)
    ensures (q + p) * y == q * y + y * p
    ensures y * (2 * p) == 2 * (y * p)
  {
  }

  lemma Halved(w: nat, k: nat, y: int)
    requires k < w
    ensures var p := Pow2(w - k - 1);
      && Pow2(w - k) == 2 * p && Pow2(k + 1) == 2 * Pow2(k)
      && p / 2 == Pow2(w - (k + 1)) / 2
      && (y * p) / 2 == if k + 1 < w then y * Pow2(w - (k + 1) - 1) else y / 2
  {
    if k + 1 < w {
      assert y * Pow2(w - k - 1) == y * Pow2(w - (k + 1) - 1) * 2;
    }
  }

  lemma {:induction false} AfterSteps(w: nat, op: DivOp, s: Regs, x: int, y: int, k: nat) returns (c: int)
    requires w > 0 && k <= w && 0 <= x < Pow2(w) && 0 <= y
    requires s.dividend == x && s.divisor == y * Pow2(w - 1) && s.quotient == 0 && s.msk == Pow2(w - 1)
    ensures Divided(w, x, y, k, Ticks(op, s, k), c)
  {
    if k == 0 {
      c := 0;
      if y > 0 { MulMono(1, y, Pow2(w)); }
    } else {
      c := AfterSteps(w, op, s, x, y, k - 1);
      c := DivideStep(w, op, x, y, k - 1, Ticks(op, s, k - 1), c);
    }
  }

  // The quotient and remainder the steps leave, of the magnitudes x and y.
  function Quot(w: nat, x: int, y: int): int { if y == 0 then Pow2(w) - 1 else x / y }
  function Rest(x: int, y: int): int { if y == 0 then x else x % y }

  lemma AllSteps(w: nat, op: DivOp, s: Regs, x: int, y: int)
    requires w > 0 && 0 <= x < Pow2(w) && 0 <= y
    requires s.dividend == x && s.divisor == y * Pow2(w - 1) && s.quotient == 0 && s.msk == Pow2(w - 1)
    ensures forall k :: 0 <= k < w ==> Ticks(op, s, k).Busy()
    ensures var t := Ticks(op, s, w);
      && !t.Busy() && t.dividend == Rest(x, y) && t.quotient == Quot(w, x, y)
      && t.result == (if IsRem(op) then t.dividend else t.quotient)
      && t.divisor == y / 2
  {
    forall k | 0 <= k < w ensures Ticks(op, s, k).Busy() {
      var c := AfterSteps(w, op, s, x, y, k);
      assert Pow2(w - k) == 2 * Pow2(w - k - 1);
    }
    var c := AfterSteps(w, op, s, x, y, w);
    if y > 0 {
      DivMod(x, y, Ticks(op, s, w).quotient, Ticks(op, s, w).dividend);
    }
    assert Ticks(op, s, w) == Tick(op, Ticks(op, s, w - 1));
  }

  // Table 7.1 for DIV, DIVU, REM and REMU, zero divisor and signed overflow included: busy
  // for exactly w clocks, the result captured by the last of them.
  lemma Correct(w: nat, op: DivOp, a: nat, b: nat, before: Regs)
    requires w > 0 && a < Pow2(w) && b < Pow2(w)
    ensures var s := Load(w, op, a, b, before);
      && (forall k :: 0 <= k < w ==> Ticks(op, s, k).Busy())
      && !Ticks(op, s, w).Busy()
      && Read(w, op, a, b, Ticks(op, s, w)) == DivResult(w, op, a, b)
  {
    var x, y := Magnitude(w, Negative(w, op, a), a), Magnitude(w, Negative(w, op, b), b);
    AllSteps(w, op, Load(w, op, a, b, before), x, y);
    SignsRestored(w, op, a, b, Ticks(op, Load(w, op, a, b, before), w));
  }

  // Signs taken off before the division and put back after it give truncating division.
  lemma SignsRestored(w: nat, op: DivOp, a: nat, b: nat, t: Regs)
    requires w > 0 && a < Pow2(w) && b < Pow2(w)
    requires var x, y := Magnitude(w, Negative(w, op, a), a), Magnitude(w, Negative(w, op, b), b);
      t.result == if IsRem(op) then Rest(x, y) else Quot(w, x, y)
    ensures Read(w, op, a, b, t) == DivResult(w, op, a, b)
  {
    match op
    case Divu =>
    case Remu =>
    case Div => if b != 0 { SignedQuotient(w, a, b); }
    case Rem =>
      if b != 0 {
        SignedRemainder(w, a, b);
      } else if a >= Pow2(w - 1) {
        DivMod(a - Pow2(w), Pow2(w), -1, a);
      }
  }

  lemma SignedQuotient(w: nat, a: nat, b: nat)
    requires w > 0 && a < Pow2(w) && 0 < b < Pow2(w)
    ensures var q: int := Magnitude(w, a >= Pow2(w - 1), a) / Magnitude(w, b >= Pow2(w - 1), b);
      Word(w, TruncDiv(Signed(w, a), Signed(w, b)))
      == if (a >= Pow2(w - 1)) != (b >= Pow2(w - 1)) then (-q) % Pow2(w) else q
  {
    var x, y := Magnitude(w, a >= Pow2(w - 1), a), Magnitude(w, b >= Pow2(w - 1), b);
    hide Pow2;
    assert Abs(Signed(w, a)) == x && Abs(Signed(w, b)) == y;
    QuotFits(x, y, Pow2(w));
    DivMod(x / y, Pow2(w), 0, x / y);
  }

  lemma SignedRemainder(w: nat, a: nat, b: nat)
    requires w > 0 && a < Pow2(w) && 0 < b < Pow2(w)
    ensures var r: int := Magnitude(w, a >= Pow2(w - 1), a) % Magnitude(w, b >= Pow2(w - 1), b);
      Word(w, TruncRem(Signed(w, a), Signed(w, b)))
      == if a >= Pow2(w - 1) then (-r) % Pow2(w) else r
  {
    var x, y := Magnitude(w, a >= Pow2(w - 1), a), Magnitude(w, b >= Pow2(w - 1), b);
    hide Pow2;
    assert Abs(Signed(w, a)) == x && Abs(Signed(w, b)) == y;
    TruncRemMagnitudes(Signed(w, a), Signed(w, b));
    RestFits(x, y, Pow2(w));
    DivMod(x % y, Pow2(w), 0, x % y);
  }

  lemma TruncRemMagnitudes(a: int, b: int)
    requires b != 0
    ensures TruncRem(a, b) == if a < 0 then -(Abs(a) % Abs(b)) else Abs(a) % Abs(b)
  {
    var x: int, y: int := Abs(a), Abs(b);
    var q, r := x / y, x % y;
    assert x == q * y + r;
    SignProduct(q, y);
    assert TruncDiv(a, b) * b == if a < 0 then -(q * y) else q * y;
  }

  lemma QuotFits(x: int, y: int, n: int)
    requires 0 <= x < n && 0 < y
    ensures 0 <= x / y < n
  {
    MulMono(1, y, n);
    assert n * y == y * n;
    QuotientRange(x, y, 0, n);
  }

  lemma RestFits(x: int, y: int, n: int)
    requires 0 <= x < n && 0 < y
    ensures 0 <= x % y < n
  {
    QuotFits(x, y, n);
    assert x == x / y * y + x % y;
    MulMono(0, x / y, y);
  }

  // The unit is not idle when it is done: it keeps comparing with ever smaller halves of the
  // divisor. A half that is zero or too big changes nothing.
  predicate Harmless(x: int, y: int, i: nat) { y / Pow2(i) == 0 || y / Pow2(i) > Rest(x, y) }

  lemma HalveAgain(y: int, i: nat)
    requires 0 <= y
    ensures y / Pow2(i) / 2 == y / Pow2(i + 1) && 0 <= y / Pow2(i)
  {
    DigitSplit(y, Pow2(i), 2);
    QuotientAtMost(y, Pow2(i));
  }

  // j clocks after the last busy one.
  lemma {:induction false} Overrun(w: nat, op: DivOp, s: Regs, x: int, y: int, j: nat)
    requires w > 0 && 0 <= x < Pow2(w) && 0 <= y
    requires s.dividend == x && s.divisor == y * Pow2(w - 1) && s.quotient == 0 && s.msk == Pow2(w - 1)
    ensures var t := Ticks(op, s, w + j);
      && t.msk == 0 && t.quotient == Quot(w, x, y) && t.divisor == y / Pow2(j + 1)
      && t.dividend <= Rest(x, y)
      && (t.dividend == Rest(x, y) <==> forall i :: 1 <= i <= j ==> Harmless(x, y, i))
      && t.result == (if IsRem(op) then t.dividend else t.quotient)
  {
    AllSteps(w, op, s, x, y);
    if j == 0 {
      HalveAgain(y, 0);
    } else {
      Overrun(w, op, s, x, y, j - 1);
      var t := Ticks(op, s, w + j - 1);
      assert Ticks(op, s, w + j) == Tick(op, t);
      HalveAgain(y, j);
      OneMoreHalf(x, y, j);
    }
  }

  lemma OneMoreHalf(x: int, y: int, j: nat)
    requires j > 0
    ensures (forall i :: 1 <= i <= j ==> Harmless(x, y, i)) <==>
      ((forall i :: 1 <= i <= j - 1 ==> Harmless(x, y, i)) && Harmless(x, y, j))
  {
    hide Harmless;
  }

  // Held for any number of clocks more, the result survives exactly when it is a quotient, or
  // none of the halves met on the way fits into the remainder.
  lemma LateExact(w: nat, op: DivOp, a: nat, b: nat, before: Regs, j: nat)
    requires w > 0 && a < Pow2(w) && b < Pow2(w)
    ensures var s := Load(w, op, a, b, before);
      var y: int := Magnitude(w, Negative(w, op, b), b);
      var x: int := Magnitude(w, Negative(w, op, a), a);
      Ticks(op, s, w + j).result == Ticks(op, s, w).result
      <==> !IsRem(op) || forall i :: 1 <= i <= j ==> Harmless(x, y, i)
  {
    var x, y := Magnitude(w, Negative(w, op, a), a), Magnitude(w, Negative(w, op, b), b);
    var s := Load(w, op, a, b, before);
    hide Harmless, Ticks, Magnitude, Negative;
    AllSteps(w, op, s, x, y);
    Overrun(w, op, s, x, y, j);
  }

  // The remainder of 1 by 2 is 1, and 0 if the unit is held for one clock or more.
  lemma LateFails(w: nat, before: Regs, j: nat)
    requires w > 1 && j >= 1
    ensures 1 < Pow2(w) && 2 < Pow2(w)
    ensures Ticks(Remu, Load(w, Remu, 1, 2, before), w + j).result != DivResult(w, Remu, 1, 2)
  {
    assert Pow2(w) == 4 * Pow2(w - 2);
    assert Pow2(1) == 2;
    assert !Harmless(1, 2, 1);
    LateExact(w, Remu, 1, 2, before, j);
    Correct(w, Remu, 1, 2, before);
  }
}
