/**
  Powers of two, and machine words as integers: shifting is multiplication or division by a power of two,
  truncation is a remainder.
 */
module Bits {

  function Pow2(n: nat): (p: int)
    ensures p > 0
  {
    if n == 0 then 1 else 2 * Pow2(n - 1)
  }

  const TWO64 := 0x1_0000_0000_0000_0000
  const TWO65 := 0x2_0000_0000_0000_0000

  function Bit(b: bool): int { if b then 1 else 0 }

  /** A 64-bit word as a signed number. */
  function S64(x: int): int { if x < 0x8000_0000_0000_0000 then x else x - TWO64 }

  lemma Double(p: int, q: int)
    ensures 2 * (p * q) == (2 * p) * q
  {
  }

  lemma {:induction false} Pow2Add(a: nat, b: nat)
    ensures Pow2(a + b) == Pow2(a) * Pow2(b)
  {
    if a > 0 {
      Pow2Add(a - 1, b);
      Double(Pow2(a - 1), Pow2(b));
    }
  }

  lemma Pow2Values()
    ensures Pow2(3) == 8 && Pow2(4) == 16 && Pow2(11) == 0x800 && Pow2(12) == 0x1000 && Pow2(13) == 0x2000
    ensures Pow2(14) == 0x4000 && Pow2(32) == 0x1_0000_0000 && Pow2(64) == TWO64 && Pow2(65) == TWO65
  {
    assert Pow2(4) == 16;
    assert Pow2(8) == 0x100;
    assert Pow2(12) == 0x1000;
    Pow2Add(16, 16);
    Pow2Add(8, 8);
    Pow2Add(32, 32);
  }

  lemma {:induction false} Pow2Monotone(a: nat, b: nat)
    requires a <= b
    ensures Pow2(a) <= Pow2(b)
  {
    if a < b {
      Pow2Monotone(a, b - 1);
    }
  }

  /** Quotient and remainder are unique. */
  lemma DivModUnique(x: int, d: int, q: int, r: int)
    requires d > 0 && x == q * d + r && 0 <= r < d
    ensures x / d == q && x % d == r
  {
    var q', r' := x / d, x % d;
    assert d * q - d * q' == r' - r;
    if q < q' {
      MulMonotone(d, 1, q' - q);
      Distribute(d, q, q' - q);
    } else if q > q' {
      MulMonotone(d, 1, q - q');
      Distribute(d, q', q - q');
    }
  }

  lemma DivMod(x: int, d: int)
    requires d > 0
    ensures x == (x / d) * d + x % d && 0 <= x % d < d
  {
  }

  /** Dividing twice is dividing by the product. */
  lemma DivDiv(x: int, a: int, b: int)
    requires a > 0 && b > 0
    ensures a * b > 0 && x / (a * b) == (x / a) / b
  {
    var u := x / a;
    var q, r := u / b, u % b;
    assert x == a * (b * q + r) + x % a;
    assert a * (b * q + r) == q * (a * b) + a * r by { Distribute(a, b * q, r); assert a * (b * q) == q * (a * b); }
    assert 0 <= a * r <= a * (b - 1) by { MulMonotone(a, r, b - 1); }
    assert a * (b - 1) == a * b - a;
    assert a * b > 0;
    DivModUnique(x, a * b, q, a * r + x % a);
  }

  lemma Distribute(a: int, x: int, y: int)
    ensures a * (x + y) == a * x + a * y
  {
  }

  lemma MulMonotone(a: int, x: int, y: int)
    requires a >= 0 && x <= y
    ensures a * x <= a * y
  {
  }

  /** A common factor of dividend and divisor comes out of the remainder. */
  lemma ModScale(x: int, p: int, q: int)
    requires p > 0 && q > 0
    ensures p * q > 0 && (p * x) % (p * q) == p * (x % q)
  {
    assert p * q > 0;
    assert p * x == (x / q) * (p * q) + p * (x % q) by {
      DivMod(x, q);
      Distribute(p, (x / q) * q, x % q);
      assert p * ((x / q) * q) == (x / q) * (p * q);
    }
    assert 0 <= p * (x % q) < p * q by { MulMonotone(p, x % q, q - 1); assert p * (q - 1) == p * q - p; }
    DivModUnique(p * x, p * q, x / q, p * (x % q));
  }

  /** Multiples of the divisor do not change a remainder. */
  lemma ModAddMultiple(x: int, k: int, d: int)
    requires d > 0
    ensures (x + k * d) % d == x % d && (x + k * d) / d == x / d + k
  {
    DivMod(x, d);
    assert x + k * d == (x / d + k) * d + x % d by { Distribute(d, x / d, k); }
    DivModUnique(x + k * d, d, x / d + k, x % d);
  }

  /** The product of a quotient and a remainder with h. */
  lemma Scaled(c: int, q: int, k: int, h: int)
    ensures (c * q + k) * h == c * (h * q) + h * k
  {
    Distribute(h, c * q, k);
    assert h * (c * q) == c * (h * q);
  }

  lemma ScaledFits(k: int, h: int, q: int)
    requires h > 0 && 0 <= k < q
    ensures 0 <= h * k <= h * q - h
  {
    MulMonotone(h, 0, k);
    MulMonotone(h, k, q - 1);
    Distribute(h, q, -1);
  }

  /** A low part that fits is added to the remainder. */
  lemma ModAddLow(x: int, y: int, d: int, c: int, low: int)
    requires d > 0 && x == c * d + low && 0 <= low && 0 <= y && low + y < d
    ensures (x + y) % d == low + y && x % d == low
  {
    DivModUnique(x + y, d, c, low + y);
    DivModUnique(x, d, c, low);
  }

  /** The remainder of a number whose low part y fits below the factor h of its high part. */
  lemma ModHighLow(x: int, y: int, h: int, q: int)
    requires h > 0 && q > 0 && 0 <= y < h
    ensures h * q > 0 && (x * h + y) % (h * q) == h * (x % q) + y && (x * h) % (h * q) == h * (x % q)
  {
    var c, k := x / q, x % q;
    DivMod(x, q);
    Scaled(c, q, k, h);
    ScaledFits(k, h, q);
    ModAddLow(x * h, y, h * q, c, h * k);
  }

  /** Adding d leaves a remainder alone exactly if d is a multiple of the divisor. */
  lemma ModSameIff(x: int, d: int, m: int)
    requires m > 0
    ensures (x + d) % m == x % m <==> d % m == 0
  {
    DivMod(x, m);
    DivMod(d, m);
    if d % m == 0 {
      ModAddMultiple(x, d / m, m);
    } else if (x + d) % m == x % m {
      DivMod(x + d, m);
      assert d == ((x + d) / m - x / m) * m + 0 by { Distribute(m, (x + d) / m, -(x / m)); }
      DivModUnique(d, m, (x + d) / m - x / m, 0);
    }
  }
}
