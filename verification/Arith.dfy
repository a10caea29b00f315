/** Powers of two, division and modulus facts shared by the iterative arithmetic units. */
module Arith {

  function Pow2(n: nat): (p: int)
    ensures p > 0
  {
    if n == 0 then 1 else 2 * Pow2(n - 1)
  }

  lemma {:induction false} Pow2Add(a: nat, b: nat)
    ensures Pow2(a + b) == Pow2(a) * Pow2(b)
  {
    if a != 0 {
      Pow2Add(a - 1, b);
      assert Pow2(a + b) == 2 * Pow2(a - 1 + b);
      assert 2 * (Pow2(a - 1) * Pow2(b)) == (2 * Pow2(a - 1)) * Pow2(b);
    }
  }

  // Quotient and remainder are determined by the division equation.
  lemma DivMod(x: int, d: int, q: int, r: int)
    requires 0 <= r < d
    requires x == q * d + r
    ensures x / d == q && x % d == r
  {
    var q', r' := x / d, x % d;
    assert x == q' * d + r';
    assert (q - q') * d == r' - r;
    Multiple(q - q', d);
  }

  // A multiple of d other than zero is at least d away from zero.
  lemma Multiple(k: int, d: int)
    requires 0 < d
    ensures k >= 1 ==> k * d >= d
    ensures k <= -1 ==> k * d <= -d
  {
    if k >= 1 {
      MulMono(1, k, d);
    } else if k <= -1 {
      MulMono(k, -1, d);
    }
  }

  lemma MulMono(a: int, b: int, c: int)
    requires a <= b && 0 <= c
    ensures a * c <= b * c
  {
  }

  lemma MulStrict(a: int, b: int, c: int)
    requires a < b && 0 < c
    ensures a * c < b * c
  {
  }

  // Adding a multiple of the modulus changes nothing.
  lemma ModShift(x: int, k: int, m: int)
    requires m > 0
    ensures (x + k * m) % m == x % m
  {
    var q, r := x / m, x % m;
    assert x + k * m == (q + k) * m + r;
    DivMod(x + k * m, m, q + k, r);
  }

  // One more base-m digit of x: x mod (p*m) is (digit)*p + x mod p.
  lemma DigitSplit(x: int, p: int, m: int)
    requires p > 0 && m > 0
    ensures p * m > 0
    ensures x / (p * m) == x / p / m
    ensures x % (p * m) == (x / p % m) * p + x % p
  {
    var q, r := x / p, x % p;
    var q', v := q / m, q % m;
    assert q == q' * m + v;
    assert x == q' * (p * m) + (v * p + r) by {
      assert x == q * p + r;
      assert (q' * m + v) * p == q' * (p * m) + v * p;
    }
    assert 0 <= v * p + r < p * m by {
      MulMono(v, m - 1, p);
      assert (m - 1) * p == m * p - p;
    }
    DivMod(x, p * m, q', v * p + r);
  }

  // A quotient lies between the bounds of its dividend.
  lemma QuotientRange(x: int, n: int, lo: int, hi: int)
    requires 0 < n
    requires lo * n <= x < hi * n
    ensures lo <= x / n < hi
  {
    var q, r := x / n, x % n;
    assert x == q * n + r;
    if q < lo {
      MulMono(q + 1, lo, n);
    }
    if hi <= q {
      MulMono(hi, q, n);
    }
  }

  lemma ProductBelow(x: int, y: int, n: int)
    requires 0 <= x < n && 0 <= y < n
    ensures 0 <= x * y < n * n
  {
    MulMono(x, n, y);
    MulStrict(y, n, n);
    assert y * n == n * y;
  }
}
