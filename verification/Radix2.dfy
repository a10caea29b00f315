/** The radix-2 serial shift-add multiplier: w clocks, plus one to negate. */
module Radix2 {
  import opened Arith
  import opened MulDivSpec

  // The unit's registers. pm is mul_pm, the 2w-bit {partial product, multiplier}.
  datatype Regs = Regs(pm: int, mcand: int, count: nat, neg: bool, negatePending: bool)
  {
    predicate Busy() { count > 0 || negatePending }

    // mul_lo for MUL, mul_hi for the rest.
    function Read(w: nat, op: MulOp): int
    {
      if op.Mul? then pm % Pow2(w) else pm / Pow2(w)
    }

    // Clocks until Busy() drops.
    function Remaining(): nat
    {
      count + if negatePending || (count > 0 && neg) then 1 else 0
    }
  }

  // What a load clock leaves in the registers.
  function Load(w: nat, op: MulOp, a: nat, b: nat): Regs
    requires w > 0 && a < Pow2(w) && b < Pow2(w)
  {
    var na, nb := NegA(w, op, a), NegB(w, op, b);
    Regs(Magnitude(w, nb, b), Magnitude(w, na, a), w, na != nb, false)
  }

  // One clock without a load. The shifted-in sum has w+1 bits, so nothing is lost.
  function Tick(w: nat, s: Regs): Regs
    requires w > 0
  {
    if s.count > 0 then
      var hi, lo := s.pm / Pow2(w), s.pm % Pow2(w);
      var upper := if s.pm % 2 == 1 then hi + s.mcand else hi;
      Regs(upper * Pow2(w - 1) + lo / 2, s.mcand, s.count - 1, s.neg,
           if s.count == 1 then s.neg else s.negatePending)
    else if s.negatePending then
      s.(pm := (Pow2(2 * w) - s.pm) % Pow2(2 * w), negatePending := false)
    else s
  }

  function Ticks(w: nat, s: Regs, k: nat): Regs
    requires w > 0
  {
    if k == 0 then s else Tick(w, Ticks(w, s, k - 1))
  }

  /** The register block of the source: loaded by aluWr & isMul, clocked otherwise. */
  class Multiplier {
    const w: nat
    var pm: int
    var mcand: int
    var count: nat
    var neg: bool
    var negatePending: bool

    function State(): Regs
      reads this
    {
      Regs(pm, mcand, count, neg, negatePending)
    }

    constructor (w: nat)
      ensures this.w == w && !State().Busy()
    {
      this.w := w;
      count, negatePending := 0, false;
    }

    method Clock(load: bool, op: MulOp, a: nat, b: nat)
      requires w > 0 && a < Pow2(w) && b < Pow2(w)
      modifies this
      ensures State() == if load then Load(w, op, a, b) else Tick(w, old(State()))
    {
      if load {
        var sign1, sign2 := NegA(w, op, a), NegB(w, op, b);
        pm := Magnitude(w, sign2, b);
        mcand := Magnitude(w, sign1, a);
        count := w;
        neg := sign1 != sign2;
        negatePending := false;
      } else if count > 0 {
        var sum := pm / Pow2(w) + if pm % 2 == 1 then mcand else 0;
        if count == 1 { negatePending := neg; }
        pm, count := sum * Pow2(w - 1) + pm % Pow2(w) / 2, count - 1;
      } else if negatePending {
        pm, negatePending := (Pow2(2 * w) - pm) % Pow2(2 * w), false;
      }
    }
  }

  // The step in one formula: add the multiplicand above bit w when the low bit is set, halve.
  lemma ShiftAdd(w: nat, pm: int, m: int)
    requires w > 0
    ensures (pm / Pow2(w) + if pm % 2 == 1 then m else 0) * Pow2(w - 1) + pm % Pow2(w) / 2
         == (pm + (pm % 2) * m * Pow2(w)) / 2
  {
    var h := Pow2(w - 1);
    var hi, lo := pm / (2 * h), pm % (2 * h);
    assert pm == hi * (2 * h) + lo;
    ModShift(lo, hi * h, 2);
    assert pm == lo + hi * h * 2;
    var c := if pm % 2 == 1 then m else 0;
    assert (hi + c) * h == hi * h + c * h;
    assert (pm % 2) * m * Pow2(w) == 2 * (c * h);
  }

  // After k clocks: M·(b mod 2^k)·2^(w-k) + floor(b / 2^k).
  lemma {:induction false} PartialProduct(w: nat, s: Regs, k: nat)
    requires w > 0 && k <= w && s.count == w && !s.negatePending
    requires 0 <= s.pm < Pow2(w)
    ensures var t := Ticks(w, s, k);
      && t.pm == s.mcand * (s.pm % Pow2(k)) * Pow2(w - k) + s.pm / Pow2(k)
      && t.mcand == s.mcand && t.count == w - k && t.neg == s.neg
      && t.negatePending == (k == w && s.neg)
  {
    if k > 0 {
      PartialProduct(w, s, k - 1);
      var u := Ticks(w, s, k - 1);
      var p, r := Pow2(k - 1), Pow2(w - k);
      var c, q := s.pm % p, s.pm / p;
      DigitSplit(s.pm, p, 2);
      assert Pow2(k) == p * 2 && Pow2(w - (k - 1)) == 2 * r;
      assert p * (2 * r) == Pow2(w) by { Pow2Add(k - 1, w - (k - 1)); }
      OneBit(s.mcand, c, q, p, r);
      ShiftAdd(w, u.pm, s.mcand);
    }
  }

  // Moving bit q mod 2 of the multiplier into the partial product.
  lemma OneBit(m: int, c: int, q: int, p: int, r: int)
    ensures var pm := m * c * (2 * r) + q; var bit := q % 2;
      && pm % 2 == bit
      && (pm + bit * m * (p * (2 * r))) / 2 == m * (bit * p + c) * r + q / 2
  {
    var bit := q % 2;
    var base := m * c * r;
    assert m * c * (2 * r) == base * 2;
    ModShift(q, base, 2);
    assert bit * m * (p * (2 * r)) == (m * (bit * p) * r) * 2 by {
      assert bit * m * (p * (2 * r)) == m * (bit * p) * (2 * r);
    }
    assert m * (bit * p + c) * r == m * (bit * p) * r + base;
    DivMod(base * 2 + q + (m * (bit * p) * r) * 2, 2, base + m * (bit * p) * r + q / 2, q % 2);
  }

  // The unit is busy for exactly w clocks, or w+1 when it has to negate.
  lemma Duration(w: nat, s: Regs)
    requires w > 0 && s.count == w && !s.negatePending && 0 <= s.pm < Pow2(w)
    ensures forall k :: 0 <= k < s.Remaining() ==> Ticks(w, s, k).Busy()
    ensures !Ticks(w, s, s.Remaining()).Busy()
  {
    forall k | 0 <= k <= w
      ensures Ticks(w, s, k).Busy() == (k < w || s.neg)
    {
      PartialProduct(w, s, k);
    }
    if s.neg {
      PartialProduct(w, s, w);
      assert Ticks(w, s, w + 1) == Tick(w, Ticks(w, s, w));
    }
  }

  // With all bits consumed pm holds the product of the magnitudes ...
  lemma AllBits(w: nat, s: Regs)
    requires w > 0 && s.count == w && !s.negatePending && 0 <= s.pm < Pow2(w)
    ensures var t := Ticks(w, s, w);
      t.pm == s.mcand * s.pm && t.count == 0 && t.negatePending == s.neg
  {
    PartialProduct(w, s, w);
    DivMod(s.pm, Pow2(w), 0, s.pm);
  }

  // ... then its negation when the signs differ.
  lemma FinalProduct(w: nat, s: Regs)
    requires w > 0 && s.count == w && !s.negatePending
    requires 0 <= s.pm < Pow2(w) && 0 <= s.mcand < Pow2(w)
    ensures 0 <= s.mcand * s.pm < Pow2(2 * w)
    ensures Ticks(w, s, s.Remaining()).pm == if s.neg then Negate2(w, s.mcand * s.pm) else s.mcand * s.pm
  {
    hide Pow2;
    AllBits(w, s);
    ProductFits(w, s.mcand, s.pm);
    if s.neg {
      assert Ticks(w, s, w + 1) == Tick(w, Ticks(w, s, w));
    }
  }

  // Section 7.1 for every operation and all operands, and how long it takes.
  lemma Correct(w: nat, op: MulOp, a: nat, b: nat)
    requires w > 0 && a < Pow2(w) && b < Pow2(w)
    ensures var s, n := Load(w, op, a, b), w + if NegA(w, op, a) != NegB(w, op, b) then 1 else 0;
      && s.Remaining() == n
      && (forall k :: 0 <= k < n ==> Ticks(w, s, k).Busy())
      && !Ticks(w, s, n).Busy()
      && Ticks(w, s, n).Read(w, op) == MulResult(w, op, a, b)
  {
    var s := Load(w, op, a, b);
    Duration(w, s);
    FinalProduct(w, s);
    var p := s.mcand * s.pm;
    SignedFromMagnitudes(w, op, a, b, p, if s.neg then Negate2(w, p) else p);
  }

  lemma ProductFits(w: nat, x: nat, y: nat)
    requires x < Pow2(w) && y < Pow2(w)
    ensures 0 <= x * y < Pow2(2 * w) == Pow2(w) * Pow2(w)
  {
    hide Pow2;
    Pow2Add(w, w);
    ProductBelow(x, y, Pow2(w));
  }

  // Each clock that finds the unit busy brings the end one clock nearer.
  lemma TickRemaining(w: nat, s: Regs)
    requires w > 0
    ensures s.Busy() <==> s.Remaining() > 0
    ensures (s.count > 0 ==> !s.negatePending) ==>
      Tick(w, s).Remaining() == if s.Busy() then s.Remaining() - 1 else 0
    ensures (s.count > 0 ==> !s.negatePending) ==>
      (Tick(w, s).count > 0 ==> !Tick(w, s).negatePending)
  {
  }
}
