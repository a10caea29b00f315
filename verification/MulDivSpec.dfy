/** What the M extension's instructions compute (RISC-V Unprivileged ISA 20191213,
    sections 7.1 and 7.2), for words of any width w written as numbers below 2^w. */
module MulDivSpec {
  import opened Arith

  datatype MulOp = Mul | Mulh | Mulhsu | Mulhu
  datatype DivOp = Div | Divu | Rem | Remu

  // The two's complement reading of a w-bit word.
  function Signed(w: nat, x: nat): (v: int)
    requires w > 0 && x < Pow2(w)
  {
    if x >= Pow2(w - 1) then x - Pow2(w) else x
  }

  // The w-bit word that holds an integer modulo 2^w.
  function Word(w: nat, v: int): (x: nat)
    ensures x < Pow2(w)
  {
    v % Pow2(w)
  }

  function FullProduct(w: nat, op: MulOp, a: nat, b: nat): int
    requires w > 0 && a < Pow2(w) && b < Pow2(w)
  {
    match op
    case Mul => a * b
    case Mulh => Signed(w, a) * Signed(w, b)
    case Mulhsu => Signed(w, a) * b
    case Mulhu => a * b
  }

  // Section 7.1: MUL returns the low word, the others the high word.
  function MulResult(w: nat, op: MulOp, a: nat, b: nat): nat
    requires w > 0 && a < Pow2(w) && b < Pow2(w)
  {
    var p := FullProduct(w, op, a, b);
    if op.Mul? then Word(w, p) else Word(w, p / Pow2(w))
  }

  function Abs(x: int): nat { if x < 0 then -x else x }

  // Division rounding towards zero, and the remainder that goes with it.
  function TruncDiv(a: int, b: int): int
    requires b != 0
  {
    if (a < 0) == (b < 0) then Abs(a) / Abs(b) else -(Abs(a) / Abs(b))
  }

  function TruncRem(a: int, b: int): int
    requires b != 0
  {
    a - TruncDiv(a, b) * b
  }

  // Section 7.2 with the zero-divisor rows of table 7.1. Signed overflow is not
  // a separate row here: -2^(w-1) / -1 is 2^(w-1), which Word wraps to the dividend.
  function DivResult(w: nat, op: DivOp, a: nat, b: nat): nat
    requires w > 0 && a < Pow2(w) && b < Pow2(w)
  {
    match op
    case Divu => if b == 0 then Pow2(w) - 1 else a / b
    case Remu => if b == 0 then a else a % b
    case Div => if b == 0 then Pow2(w) - 1 else Word(w, TruncDiv(Signed(w, a), Signed(w, b)))
    case Rem => if b == 0 then a else Word(w, TruncRem(Signed(w, a), Signed(w, b)))
  }

  // Sign handling of the serial units: work on magnitudes, negate the 2w-bit result.
  function Magnitude(w: nat, negative: bool, x: nat): (m: nat)
    requires w > 0 && x < Pow2(w)
    requires negative ==> x >= Pow2(w - 1)
    ensures m < Pow2(w)
    ensures negative ==> m <= Pow2(w - 1)
  {
    if negative then Pow2(w) - x else x
  }

  // Whether the serial multipliers take an operand as negative for an operation.
  predicate NegA(w: nat, op: MulOp, a: nat)
    requires w > 0
  {
    (op.Mulh? || op.Mulhsu?) && a >= Pow2(w - 1)
  }

  predicate NegB(w: nat, op: MulOp, b: nat)
    requires w > 0
  {
    op.Mulh? && b >= Pow2(w - 1)
  }

  // The 2w-bit two's complement negation.
  function Negate2(w: nat, p: nat): nat
    requires p < Pow2(2 * w)
  {
    (Pow2(2 * w) - p) % Pow2(2 * w)
  }

  // From the product of the magnitudes, negated when the signs differ, the selected
  // half is what section 7.1 asks for.
  lemma SignedFromMagnitudes(w: nat, op: MulOp, a: nat, b: nat, p: nat, r: nat)
    requires w > 0 && a < Pow2(w) && b < Pow2(w)
    requires p == Magnitude(w, NegA(w, op, a), a) * Magnitude(w, NegB(w, op, b), b)
    requires p < Pow2(2 * w)
    requires r == if NegA(w, op, a) != NegB(w, op, b) then Negate2(w, p) else p
    ensures (if op.Mul? then r % Pow2(w) else r / Pow2(w)) == MulResult(w, op, a, b)
  {
    hide Pow2;
    FullFromMagnitudes(w, op, a, b);
    Pow2Add(w, w);
    if NegA(w, op, a) != NegB(w, op, b) {
      HighOfNegation(Pow2(w), p);
      LowOfNegation(Pow2(w), p);
    } else {
      HighOfPositive(Pow2(w), p);
    }
  }

  // The signed product is the product of the magnitudes, up to its sign.
  lemma FullFromMagnitudes(w: nat, op: MulOp, a: nat, b: nat)
    requires w > 0 && a < Pow2(w) && b < Pow2(w)
    ensures var p: int := Magnitude(w, NegA(w, op, a), a) * Magnitude(w, NegB(w, op, b), b);
      FullProduct(w, op, a, b) == if NegA(w, op, a) != NegB(w, op, b) then -p else p
  {
    hide Pow2;
    var sa: int, sb: int := Magnitude(w, NegA(w, op, a), a), Magnitude(w, NegB(w, op, b), b);
    SignProduct(sa, sb);
  }

  lemma LowOfNegation(n: int, p: int)
    requires 0 < n && 0 <= p < n * n
    ensures (n * n - p) % (n * n) % n == (-p) % n
  {
    if p == 0 {
      DivMod(n * n, n * n, 1, 0);
    } else {
      DivMod(n * n - p, n * n, 0, n * n - p);
      ModShift(-p, n, n);
    }
  }

  lemma SignProduct(x: int, y: int)
    ensures (-x) * (-y) == x * y && (-x) * y == -(x * y) && x * (-y) == -(x * y)
  {
  }

  lemma HighOfPositive(n: int, p: int)
    requires 0 < n && 0 <= p < n * n
    ensures p / n == p / n % n
  {
    QuotientRange(p, n, 0, n);
    DivMod(p / n, n, 0, p / n);
  }

  lemma HighOfNegation(n: int, p: int)
    requires 0 < n && 0 <= p < n * n
    ensures (n * n - p) % (n * n) / n == (-p) / n % n
  {
    if p == 0 {
      DivMod(n * n, n * n, 1, 0);
      DivMod(0, n, 0, 0);
    } else {
      var q, l := (-p) / n, (-p) % n;
      assert -p == q * n + l;
      assert n * n - p == (n + q) * n + l;
      DivMod(n * n - p, n * n, 0, n * n - p);
      DivMod(n * n - p, n, n + q, l);
      assert (-n) * n == -(n * n);
      QuotientRange(-p, n, -n, 0);
      DivMod(q, n, -1, q + n);
    }
  }

  lemma QuotientAtMost(x: int, y: int)
    requires 0 <= x && 0 < y
    ensures 0 <= x / y <= x && 0 <= x % y < y && x % y <= x
  {
    assert x == x / y * y + x % y;
    MulMono(1, y, x + 1);
    assert (x + 1) * y == y * (x + 1);
    QuotientRange(x, y, 0, x + 1);
    MulMono(0, x / y, y);
  }
}
