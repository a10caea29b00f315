/** The 1-bit-per-clock serial shifter and the bit-reversing barrel shifter. */
module Shifter {
  import opened Arith
  import opened MulDivSpec

  datatype ShiftOp = Sll | Srl | Sra

  // What SLL, SRL and SRA compute (RISC-V Unprivileged ISA, section 2.4), as arithmetic.
  function Shift(w: nat, op: ShiftOp, x: nat, c: nat): int
    requires w > 0 && x < Pow2(w)
  {
    match op
    case Sll => x * Pow2(c) % Pow2(w)
    case Srl => x / Pow2(c)
    case Sra => Signed(w, x) / Pow2(c) % Pow2(w)
  }

  datatype Regs = Regs(data: int, count: nat, left: bool, arith: bool)
  {
    predicate Busy() { count != 0 }
  }

  function Load(op: ShiftOp, x: nat, c: nat): Regs
  {
    Regs(x, c, op.Sll?, op.Sra?)
  }

  // The data register one position on: the bit that comes in is 0, or the sign bit.
  function Moved(w: nat, x: int, left: bool, arith: bool): int
    requires w > 0
  {
    if left then 2 * x % Pow2(w)
    else if arith && x >= Pow2(w - 1) then Pow2(w - 1) + x / 2
    else x / 2
  }

  // One clock without a load.
  function Tick(w: nat, s: Regs): Regs
    requires w > 0
  {
    if s.count == 0 then s
    else s.(data := Moved(w, s.data, s.left, s.arith), count := s.count - 1)
  }

  function Ticks(w: nat, s: Regs, k: nat): Regs
    requires w > 0
    decreases k
  {
    if k == 0 then s else Ticks(w, Tick(w, s), k - 1)
  }

  /** The register block of the source. */
  class SerialShifter {
    const w: nat
    var data: int
    var count: nat
    var left: bool
    var arith: bool

    function State(): Regs
      reads this
    {
      Regs(data, count, left, arith)
    }

    constructor (w: nat)
      ensures this.w == w && !State().Busy()
    {
      this.w := w;
      count := 0;
    }

    method Clock(load: bool, op: ShiftOp, x: nat, c: nat)
      requires w > 0
      modifies this
      ensures State() == if load then Load(op, x, c) else Tick(w, old(State()))
    {
      if load {
        data, count, left, arith := x, c, op.Sll?, op.Sra?;
      } else if count != 0 {
        if left {
          data := 2 * data % Pow2(w);
        } else {
          data := data / 2 + if arith && data >= Pow2(w - 1) then Pow2(w - 1) else 0;
        }
        count := count - 1;
      }
    }
  }

  lemma MovedFits(w: nat, x: int, left: bool, arith: bool)
    requires w > 0 && 0 <= x < Pow2(w)
    ensures 0 <= Moved(w, x, left, arith) < Pow2(w)
  {
  }

  // Moving one position now leaves one position less to shift.
  lemma MovedThenShift(w: nat, op: ShiftOp, x: nat, c: nat)
    requires w > 0 && x < Pow2(w) && c > 0
    ensures 0 <= Moved(w, x, op.Sll?, op.Sra?) < Pow2(w)
    ensures Shift(w, op, Moved(w, x, op.Sll?, op.Sra?), c - 1) == Shift(w, op, x, c)
  {
    MovedFits(w, x, op.Sll?, op.Sra?);
    assert Pow2(c) == 2 * Pow2(c - 1);
    match op
    case Sll => DoubleThenScale(x, Pow2(c - 1), Pow2(w));
    case Srl => DigitSplit(x, 2, Pow2(c - 1));
    case Sra =>
      HalvedSign(w, x);
      DigitSplit(Signed(w, x), 2, Pow2(c - 1));
  }

  lemma DoubleThenScale(x: int, p: int, n: int)
    requires n > 0
    ensures 2 * x % n * p % n == x * (2 * p) % n
  {
    var q, r := 2 * x / n, 2 * x % n;
    assert 2 * x == q * n + r;
    assert x * (2 * p) == r * p + q * p * n by {
      assert x * (2 * p) == 2 * x * p;
      assert (q * n + r) * p == r * p + q * p * n;
    }
    ModShift(r * p, q * p, n);
  }

  lemma HalvedSign(w: nat, x: nat)
    requires w > 0 && x < Pow2(w)
    ensures 0 <= Moved(w, x, false, true) < Pow2(w)
    ensures Signed(w, Moved(w, x, false, true)) == Signed(w, x) / 2
  {
    assert Pow2(w) == 2 * Pow2(w - 1);
  }

  lemma NoShift(w: nat, op: ShiftOp, x: nat)
    requires w > 0 && x < Pow2(w)
    ensures Shift(w, op, x, 0) == x
  {
    assert Pow2(0) == 1;
    DivMod(x, Pow2(w), 0, x);
    DivMod(x - Pow2(w), Pow2(w), -1, x);
  }

  // SLL, SRL and SRA for every operand and amount, busy for exactly the amount's clocks.
  lemma {:induction false} Correct(w: nat, op: ShiftOp, x: nat, c: nat)
    requires w > 0 && x < Pow2(w)
    ensures forall k :: 0 <= k < c ==> Ticks(w, Load(op, x, c), k).Busy()
    ensures !Ticks(w, Load(op, x, c), c).Busy()
    ensures Ticks(w, Load(op, x, c), c).data == Shift(w, op, x, c)
    decreases c
  {
    hide Pow2, Shift, Moved;
    var s := Load(op, x, c);
    if c == 0 {
      NoShift(w, op, x);
    } else {
      MovedThenShift(w, op, x, c);
      Correct(w, op, Moved(w, x, op.Sll?, op.Sra?), c - 1);
      forall k | 0 <= k < c ensures Ticks(w, s, k).Busy() {
        if k > 0 { assert Ticks(w, s, k) == Ticks(w, Tick(w, s), k - 1); }
      }
    }
  }

  // The bit-reverse network: bit i of x becomes bit w-1-i.
  function Reverse(w: nat, x: int): int
  {
    if w == 0 then 0 else x % 2 * Pow2(w - 1) + Reverse(w - 1, x / 2)
  }

  // One right shifter on the (w+1)-bit signed {sign, x}, between bit-reverse networks for
  // left shifts.
  function Barrel(w: nat, op: ShiftOp, x: nat, c: nat): int
    requires w > 0 && x < Pow2(w)
  {
    var shifterIn := if op.Sll? then Reverse(w, x) else x;
    var sign := op.Sra? && x >= Pow2(w - 1);
    var shifter := (if sign then shifterIn - Pow2(w) else shifterIn) / Pow2(c) % Pow2(w);
    if op.Sll? then Reverse(w, shifter) else shifter
  }

  lemma {:induction false} ReverseFits(w: nat, x: int)
    ensures 0 <= Reverse(w, x) < Pow2(w)
  {
    if w > 0 { ReverseFits(w - 1, x / 2); }
  }

  // A leading zero becomes a trailing one.
  lemma {:induction false} ReverseLeadingZero(w: nat, x: int)
    requires w > 0 && 0 <= x < Pow2(w - 1)
    ensures Reverse(w, x) == 2 * Reverse(w - 1, x)
  {
    if w > 1 {
      ReverseLeadingZero(w - 1, x / 2);
    }
  }

  lemma {:induction false} ReverseTopBit(w: nat, top: int, x: int)
    requires w > 0 && 0 <= top < 2 && 0 <= x < Pow2(w - 1)
    ensures Reverse(w, top * Pow2(w - 1) + x) == 2 * Reverse(w - 1, x) + top
  {
    if w == 1 {
      assert top * Pow2(w - 1) + x == top;
    } else {
      var h := Pow2(w - 2);
      TopHalf(top, h, x);
      ReverseTopBit(w - 1, top, x / 2);
    }
  }

  lemma TopHalf(top: int, h: int, x: int)
    ensures (top * (2 * h) + x) / 2 == top * h + x / 2 && (top * (2 * h) + x) % 2 == x % 2
  {
    assert top * (2 * h) == top * h * 2;
    DivMod(top * (2 * h) + x, 2, top * h + x / 2, x % 2);
  }

  lemma {:induction false} ReverseTwice(w: nat, x: int)
    requires 0 <= x < Pow2(w)
    ensures Reverse(w, Reverse(w, x)) == x
  {
    if w > 0 {
      ReverseFits(w - 1, x / 2);
      ReverseTopBit(w, x % 2, Reverse(w - 1, x / 2));
      ReverseTwice(w - 1, x / 2);
    }
  }

  lemma ReverseHalf(w: nat, x: int)
    requires w > 0 && 0 <= x < Pow2(w)
    ensures Reverse(w, x / 2) == 2 * Reverse(w, x) % Pow2(w)
  {
    var r := Reverse(w - 1, x / 2);
    ReverseLeadingZero(w, x / 2);
    ReverseFits(w - 1, x / 2);
    DropTop(x % 2, r, Pow2(w - 1));
  }

  lemma DropTop(b: int, r: int, p: int)
    requires 0 <= r < p
    ensures 2 * (b * p + r) % (2 * p) == 2 * r
  {
    assert 2 * (b * p + r) == b * (2 * p) + 2 * r;
    DivMod(2 * (b * p + r), 2 * p, b, 2 * r);
  }

  // Shifting right between two reversals is shifting left.
  lemma {:induction false} ReverseShifted(w: nat, x: int, c: nat)
    requires w > 0 && 0 <= x < Pow2(w)
    ensures 0 <= x / Pow2(c) < Pow2(w)
    ensures Reverse(w, x / Pow2(c)) == Reverse(w, x) * Pow2(c) % Pow2(w)
  {
    if c == 0 {
      ReverseFits(w, x);
      DivMod(Reverse(w, x), Pow2(w), 0, Reverse(w, x));
    } else {
      ReverseShifted(w, x / 2, c - 1);
      DigitSplit(x, 2, Pow2(c - 1));
      ReverseHalf(w, x);
      DoubleThenScale(Reverse(w, x), Pow2(c - 1), Pow2(w));
    }
  }

  lemma BarrelCorrect(w: nat, op: ShiftOp, x: nat, c: nat)
    requires w > 0 && x < Pow2(w)
    ensures Barrel(w, op, x, c) == Shift(w, op, x, c)
  {
    hide Pow2, Reverse;
    if op.Sll? {
      ReverseFits(w, x);
      ReverseShifted(w, Reverse(w, x), c);
      ReverseTwice(w, x);
    } else {
      ReverseShifted(w, x, c);
    }
    if 0 <= x / Pow2(c) < Pow2(w) { DivMod(x / Pow2(c), Pow2(w), 0, x / Pow2(c)); }
    if op.Sll? { DivMod(Reverse(w, x) / Pow2(c), Pow2(w), 0, Reverse(w, x) / Pow2(c)); }
  }

  // The two shifters agree on every operation, operand and amount.
  lemma SerialIsBarrel(w: nat, op: ShiftOp, x: nat, c: nat)
    requires w > 0 && x < Pow2(w)
    ensures Ticks(w, Load(op, x, c), c).data == Barrel(w, op, x, c)
  {
    hide Shift, Barrel;
    Correct(w, op, x, c);
    BarrelCorrect(w, op, x, c);
  }
}
