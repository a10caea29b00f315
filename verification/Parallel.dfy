/** The single-cycle (w+1)x(w+1) signed multiplier, the default M-extension datapath. */
module Parallel {
  import opened Arith
  import opened MulDivSpec
  import Radix2

  // The (w+1)-bit signed operand {sign, x}.
  function Extend(w: nat, sign: bool, x: nat): int
    requires x < Pow2(w)
  {
    if sign then x - Pow2(w) else x
  }

  // The word the result mux selects from the 2w-bit product.
  function Result(w: nat, op: MulOp, a: nat, b: nat): int
    requires w > 0 && a < Pow2(w) && b < Pow2(w)
  {
    var sign1 := a >= Pow2(w - 1) && op.Mulh?;
    var sign2 := b >= Pow2(w - 1) && (op.Mulh? || op.Mulhsu?);
    var product := Extend(w, sign1, a) * Extend(w, sign2, b) % (Pow2(w) * Pow2(w));
    if op.Mul? then product % Pow2(w) else product / Pow2(w)
  }

  // Selecting a half of the wrapped product is selecting it modulo 2^w.
  lemma Halves(p: int, n: int)
    requires n > 0
    ensures p % (n * n) / n == p / n % n
    ensures p % (n * n) % n == p % n
  {
    DigitSplit(p, n, n);
    DivMod(p % (n * n), n, p / n % n, p % n);
  }

  lemma MeetsSpec(w: nat, op: MulOp, a: nat, b: nat)
    requires w > 0 && a < Pow2(w) && b < Pow2(w)
    requires !op.Mulhsu?
    ensures Result(w, op, a, b) == MulResult(w, op, a, b)
  {
    Halves(FullProduct(w, op, a, b), Pow2(w));
  }

  // The serial radix-2 unit and the single-cycle multiplier give the same words.
  lemma SerialAgrees(w: nat, op: MulOp, a: nat, b: nat)
    requires w > 0 && a < Pow2(w) && b < Pow2(w)
    requires !op.Mulhsu?
    ensures var s := Radix2.Load(w, op, a, b); Radix2.Ticks(w, s, s.Remaining()).Read(w, op) == Result(w, op, a, b)
  {
    hide Pow2, MulResult, Result, Radix2.Ticks, Radix2.Load;
    Radix2.Correct(w, op, a, b);
    MeetsSpec(w, op, a, b);
  }

  // MULHSU takes the sign of the wrong operand. It is right exactly when the two
  // corrections this misplaces are the same number.
  lemma MulhsuExact(w: nat, a: nat, b: nat)
    requires w > 0 && a < Pow2(w) && b < Pow2(w)
    ensures Result(w, Mulhsu, a, b) == MulResult(w, Mulhsu, a, b)
       <==> (if a >= Pow2(w - 1) then b else 0) == (if b >= Pow2(w - 1) then a else 0)
  {
    var ca := if a >= Pow2(w - 1) then b else 0;
    var cb := if b >= Pow2(w - 1) then a else 0;
    MulhsuGot(w, a, b);
    MulhsuAsked(w, a, b);
    SameResidue(a * b / Pow2(w), ca, cb, Pow2(w));
  }

  lemma MulhsuAsked(w: nat, a: nat, b: nat)
    requires w > 0 && a < Pow2(w) && b < Pow2(w)
    ensures MulResult(w, Mulhsu, a, b)
         == (a * b / Pow2(w) - if a >= Pow2(w - 1) then b else 0) % Pow2(w)
  {
    Corrections(a, b, a >= Pow2(w - 1), false, Pow2(w));
    assert FullProduct(w, Mulhsu, a, b) == a * b - (if a >= Pow2(w - 1) then b else 0) * Pow2(w);
  }

  lemma MulhsuGot(w: nat, a: nat, b: nat)
    requires w > 0 && a < Pow2(w) && b < Pow2(w)
    ensures Result(w, Mulhsu, a, b)
         == (a * b / Pow2(w) - if b >= Pow2(w - 1) then a else 0) % Pow2(w)
  {
    var p := a * Extend(w, b >= Pow2(w - 1), b);
    assert p / Pow2(w) == a * b / Pow2(w) - if b >= Pow2(w - 1) then a else 0 by {
      Corrections(a, b, false, b >= Pow2(w - 1), Pow2(w));
    }
    Halves(p, Pow2(w));
  }

  // Both products are the unsigned one less a multiple of n.
  lemma Corrections(a: int, b: int, sa: bool, sb: bool, n: int)
    requires n > 0
    ensures var ca, cb := if sa then b else 0, if sb then a else 0;
      && (if sa then a - n else a) * b == a * b - ca * n
      && a * (if sb then b - n else b) == a * b - cb * n
      && (a * b - ca * n) / n == a * b / n - ca
      && (a * b - cb * n) / n == a * b / n - cb
  {
    Correction(a, b, sa, n);
    Correction(b, a, sb, n);
    Commutes(a, b);
    Commutes(a, if sb then b - n else b);
  }

  lemma Commutes(a: int, b: int)
    ensures a * b == b * a
  {
  }

  lemma Correction(a: int, b: int, negative: bool, n: int)
    requires n > 0
    ensures var c := if negative then b else 0;
      (if negative then a - n else a) * b == a * b - c * n && (a * b - c * n) / n == a * b / n - c
  {
    assert (a - n) * b == a * b - b * n;
    Displaced(a * b, if negative then b else 0, n);
  }

  lemma Displaced(p: int, c: int, n: int)
    requires n > 0
    ensures (p - c * n) / n == p / n - c
  {
    assert p - c * n == (p / n - c) * n + p % n;
    DivMod(p - c * n, n, p / n - c, p % n);
  }

  lemma SameResidue(h: int, x: int, y: int, n: int)
    requires 0 <= x < n && 0 <= y < n
    ensures (h - x) % n == (h - y) % n <==> x == y
  {
    if (h - x) % n == (h - y) % n {
      var qx, qy := (h - x) / n, (h - y) / n;
      assert h - x == qx * n + (h - x) % n && h - y == qy * n + (h - y) % n;
      assert y - x == (qx - qy) * n;
      if qx > qy { MulMono(1, qx - qy, n); }
      if qx < qy { MulMono(qx - qy, -1, n); }
    }
  }

  // The simplest failing case, at every width: -1 times unsigned 1.
  lemma MulhsuFails(w: nat)
    requires w > 1
    ensures Result(w, Mulhsu, Pow2(w) - 1, 1) != MulResult(w, Mulhsu, Pow2(w) - 1, 1)
  {
    MulhsuExact(w, Pow2(w) - 1, 1);
  }
}
