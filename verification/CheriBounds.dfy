/**
  Compressed capability bounds (CHERI Concentrate): decoding, and what it means in units of the exponent.
 */
module CheriBounds {
  import opened Bits

  const MAX_E := 52
  const MANTISSA := 0x4000

  datatype Bounds = Bounds(base: int, top: int)

  function U64(x: int): int { x % TWO64 }

  predicate IsU64(x: int) { 0 <= x < TWO64 }

  predicate IsMantissa(m: int) { 0 <= m < MANTISSA }

  function Effective(rawE: nat): nat { if rawE < MAX_E then rawE else MAX_E }

  /** Corner case of the top: its bit 64 is flipped if the bounds would otherwise lie more than 2^63 apart. */
  function FixTop(e: nat, base: int, top: int): int {
    if e < MAX_E - 1 && (top / 0x8000_0000_0000_0000 - base / 0x8000_0000_0000_0000) % 4 > 1
    then (if top < TWO64 then top + TWO64 else top - TWO64)
    else top
  }

  /** Bits 13..11 of B minus one, which is where the representable region starts. */
  function R3(B: int): int { (B / 0x800 % 8 - 1) % 8 }

  /** The upper part of the address with its corrections, above the mantissas. */
  function Assemble(E: nat, B: int, T: int, aTop: int, correctionBase: int, correctionTop: int): Bounds {
    var baseHi := if E + 14 <= 63 then U64(U64(aTop + correctionBase) * Pow2(14 + E)) else 0;
    var base := baseHi + U64(B * Pow2(E));
    var top := (T * Pow2(E) + U64(aTop + correctionTop) * Pow2(14 + E)) % TWO65;
    Bounds(base, FixTop(E, base, top))
  }

  /** getCapBounds. */
  function GetBounds(rawE: nat, B: int, T: int, a: int): Bounds {
    var E := Effective(rawE);
    var a3 := a / Pow2(E + 11) % 8;
    var aHi := Bit(a3 < R3(B));
    var correctionBase := Bit(B / 0x800 % 8 < R3(B)) - aHi;
    var correctionTop := Bit(T / 0x800 % 8 < R3(B)) - aHi;
    var aTop := if E + 14 <= 63 then a / Pow2(E + 14) else 0;
    Assemble(E, B, T, aTop, correctionBase, correctionTop)
  }

  // ---------------------------------------------------------------- in units of 2^E

  /** The last address congruent to the start of the representable region that is not above u. */
  function RegionStart(B: int, u: int): int { u - (u - R3(B) * 0x800) % MANTISSA }

  /** The one number in [s, s + 2^14) whose low 14 bits are m. */
  function Place(s: int, m: int): int { s + (m - s) % MANTISSA }

  /** Bounds of a region that starts at s: both mantissas, placed in that region and scaled. */
  function BoundsIn(e: nat, s: int, B: int, T: int): Bounds {
    var base := Pow2(e) * Place(s, B) % TWO64;
    Bounds(base, FixTop(e, base, Pow2(e) * Place(s, T) % TWO65))
  }

  /** A number by its part above the mantissa, its upper three bits of the mantissa, and the rest. */
  lemma Octant(u: int) returns (m: int, j: int)
    ensures u / 0x800 == 8 * m + j && 0 <= j < 8
    ensures u / MANTISSA == m && u % MANTISSA == 0x800 * j + u % 0x800 && u % MANTISSA / 0x800 == j
  {
    var k, r := u / 0x800, u % 0x800;
    m, j := k / 8, k % 8;
    DivModUnique(u, MANTISSA, m, 0x800 * j + r);
    DivModUnique(0x800 * j + r, 0x800, j, r);
  }

  /** Comparing the upper three bits with the start of the region compares the whole mantissa with it. */
  lemma BelowStart(u: int, k: int)
    ensures u / 0x800 % 8 < k <==> u % MANTISSA < k * 0x800
  {
    var m, j := Octant(u);
  }

  lemma PlaceIs(q: int, R: int, u: int, m: int)
    requires 0 <= R < MANTISSA && u / MANTISSA == q && IsMantissa(m)
    ensures var s := (q - Bit(u % MANTISSA < R)) * MANTISSA + R;
            && u - (u - R) % MANTISSA == s
            && Place(s, m) == (q + Bit(m < R) - Bit(u % MANTISSA < R)) * MANTISSA + m
  {
    var low := Bit(u % MANTISSA < R);
    var s := (q - low) * MANTISSA + R;
    DivModUnique(u - R, MANTISSA, q - low, u - s);
    DivModUnique(m - s, MANTISSA, low - q - Bit(m < R), m - R + Bit(m < R) * MANTISSA);
  }

  /** The correction terms place a mantissa in the region of the address. */
  lemma CorrectionPlaces(B: int, m: int, u: int)
    requires IsMantissa(m)
    ensures var hi := Bit(m / 0x800 % 8 < R3(B)) - Bit(u / 0x800 % 8 < R3(B));
            (u / MANTISSA + hi) * MANTISSA + m == Place(RegionStart(B, u), m)
  {
    BelowStart(m, R3(B));
    BelowStart(u, R3(B));
    PlaceIs(u / MANTISSA, R3(B) * 0x800, u, m);
  }

  lemma AddressInUnits(a: int, e: nat)
    requires IsU64(a) && e <= MAX_E
    ensures a / Pow2(e + 11) == a / Pow2(e) / 0x800
    ensures a / Pow2(e + 14) == a / Pow2(e) / MANTISSA
    ensures e + 14 > 63 ==> a / Pow2(e + 14) == 0
  {
    Pow2Values();
    Pow2Add(e, 11);
    Pow2Add(e, 14);
    DivDiv(a, Pow2(e), 0x800);
    DivDiv(a, Pow2(e), MANTISSA);
    if e + 14 > 63 {
      Pow2Monotone(64, e + 14);
      DivModUnique(a, Pow2(e + 14), 0, a);
    }
  }

  /** 2^64 in units of a smaller power of two. */
  lemma Split64(k: nat)
    requires k <= 64
    ensures Pow2(k) * Pow2(64 - k) == TWO64
  {
    Pow2Values();
    Pow2Add(k, 64 - k);
  }

  /** Truncating before or after a shift by k makes no difference to the low 64 bits. */
  lemma ShiftTruncated(x: int, k: nat)
    ensures U64(U64(x) * Pow2(k)) == U64(x * Pow2(k))
  {
    DivMod(x, TWO64);
    var q := x / TWO64;
    assert x * Pow2(k) == U64(x) * Pow2(k) + (q * Pow2(k)) * TWO64 by {
      Distribute(Pow2(k), q * TWO64, U64(x));
      assert Pow2(k) * (q * TWO64) == (q * Pow2(k)) * TWO64;
    }
    ModAddMultiple(U64(x) * Pow2(k), q * Pow2(k), TWO64);
  }

  /** x * 2^14 + B in units of P; H is 2^14 in units of P. */
  lemma UnitsSplit(P: int, H: int, x: int, B: int)
    requires P > 0 && H == MANTISSA * P && IsMantissa(B)
    ensures P * (x * MANTISSA + B) == x * H + B * P
    ensures 0 <= B * P < H
  {
    Distribute(P, x * MANTISSA, B);
    MulMonotone(P, B, MANTISSA - 1);
    MulMonotone(P, 0, B);
  }

  lemma BaseScalesLow(P: int, H: int, Q: int, x: int, B: int)
    requires P > 0 && Q > 0 && H == MANTISSA * P && H * Q == TWO64 && IsMantissa(B)
    ensures U64(x * H) + U64(B * P) == P * (x * MANTISSA + B) % TWO64
  {
    UnitsSplit(P, H, x, B);
    ModHighLow(x, B * P, H, Q);
    MulMonotone(H, 1, Q);
    DivModUnique(B * P, TWO64, 0, B * P);
  }

  lemma BaseScalesHigh(P: int, H: int, K: int, x: int, B: int)
    requires P > 0 && H == MANTISSA * P && H == K * TWO64 && IsMantissa(B)
    ensures U64(B * P) == P * (x * MANTISSA + B) % TWO64
  {
    UnitsSplit(P, H, x, B);
    assert x * H == (x * K) * TWO64;
    ModAddMultiple(B * P, x * K, TWO64);
  }

  /** Shifted-out high part plus low part is the whole, modulo 2^64. */
  lemma BaseScales(e: nat, x: int, B: int)
    requires e <= MAX_E && IsMantissa(B)
    ensures (if e + 14 <= 63 then U64(U64(x) * Pow2(14 + e)) else 0) + U64(B * Pow2(e))
            == Pow2(e) * (x * MANTISSA + B) % TWO64
  {
    Pow2Values();
    Pow2Add(14, e);
    if e + 14 <= 63 {
      Split64(14 + e);
      ShiftTruncated(x, 14 + e);
      BaseScalesLow(Pow2(e), Pow2(14 + e), Pow2(50 - e), x, B);
    } else {
      Pow2Add(e - 50, 64);
      BaseScalesHigh(Pow2(e), Pow2(14 + e), Pow2(e - 50), x, B);
    }
  }

  lemma TopScalesPlain(P: int, H: int, Q: int, x: int, T: int)
    requires H == MANTISSA * P && H == 2 * Q
    ensures (T * P + U64(x) * H) % TWO65 == P * (x * MANTISSA + T) % TWO65
  {
    var q, r := x / TWO64, U64(x);
    assert x == q * TWO64 + r;
    assert x * H == r * H + (q * Q) * TWO65 by {
      Distribute(H, q * TWO64, r);
      assert H * (q * TWO64) == (q * Q) * TWO65;
    }
    assert P * (x * MANTISSA + T) == x * H + T * P by { Distribute(P, x * MANTISSA, T); }
    ModAddMultiple(T * P + r * H, q * Q, TWO65);
  }

  lemma TopScales(e: nat, x: int, T: int)
    ensures (T * Pow2(e) + U64(x) * Pow2(14 + e)) % TWO65 == Pow2(e) * (x * MANTISSA + T) % TWO65
  {
    Pow2Values();
    Pow2Add(14, e);
    TopScalesPlain(Pow2(e), Pow2(14 + e), Pow2(13 + e), x, T);
  }

  lemma AssembleIs(e: nat, B: int, T: int, aTop: int, correctionBase: int, correctionTop: int)
    requires IsMantissa(B) && IsMantissa(T) && e <= MAX_E
    ensures var base := Pow2(e) * ((aTop + correctionBase) * MANTISSA + B) % TWO64;
            Assemble(e, B, T, aTop, correctionBase, correctionTop)
            == Bounds(base, FixTop(e, base, Pow2(e) * ((aTop + correctionTop) * MANTISSA + T) % TWO65))
  {
    BaseScales(e, aTop + correctionBase, B);
    TopScales(e, aTop + correctionTop, T);
  }

  /** Decoding places both mantissas in the representable region of the address. */
  lemma GetBoundsIsRegion(rawE: nat, B: int, T: int, a: int)
    requires IsMantissa(B) && IsMantissa(T) && IsU64(a)
    ensures var e := Effective(rawE);
            GetBounds(rawE, B, T, a) == BoundsIn(e, RegionStart(B, a / Pow2(e)), B, T)
  {
    var e := Effective(rawE);
    var u := a / Pow2(e);
    AddressInUnits(a, e);
    var aHi := Bit(u / 0x800 % 8 < R3(B));
    AssembleIs(e, B, T, u / MANTISSA, Bit(B / 0x800 % 8 < R3(B)) - aHi, Bit(T / 0x800 % 8 < R3(B)) - aHi);
    CorrectionPlaces(B, B, u);
    CorrectionPlaces(B, T, u);
  }

  // ---------------------------------------------------------------- when two addresses have the same bounds

  /** The corner case makes bit 64 of the top a function of the other bits. */
  lemma FixTopForgetsBit64(e: nat, base: int, top: int)
    requires e < MAX_E - 1 && IsU64(base) && 0 <= top < TWO64
    ensures FixTop(e, base, top) == FixTop(e, base, top + TWO64)
  {
    var half := 0x8000_0000_0000_0000;
    assert (top + TWO64) / half == top / half + 2;
    assert 0 <= top / half < 2 && 0 <= base / half < 2;
  }

  lemma TopMovesBy(t: int, k: int)
    ensures var top, top' := t % TWO65, (t + k * TWO64) % TWO65;
            top' == top || (top < TWO64 && top' == top + TWO64) || (top' < TWO64 && top == top' + TWO64)
    ensures k % 2 == 0 ==> t % TWO65 == (t + k * TWO64) % TWO65
  {
  }

  lemma PlaceMoves(s: int, j: int, m: int)
    ensures Place(s + j * MANTISSA, m) == Place(s, m) + j * MANTISSA
  {
    ModAddMultiple(m - s, -j, MANTISSA);
  }

  /** From exponent 51 on, regions repeat only at multiples of 2^65. */
  lemma WideRegions(e: nat, j: int)
    requires e >= MAX_E - 1
    ensures Pow2(e) * (j * MANTISSA) % TWO65 == 0
  {
    var K := Pow2(e - 51);
    assert Pow2(e) * MANTISSA == K * TWO65 by { Pow2Values(); Pow2Add(e, 14); Pow2Add(e - 51, 65); }
    assert Pow2(e) * (j * MANTISSA) == (j * K) * TWO65;
    ModAddMultiple(0, j * K, TWO65);
  }

  /** Scaled, that is a shift by D. */
  lemma ScaledPlaceMoves(P: int, s: int, j: int, m: int, D: int)
    requires D == P * (j * MANTISSA)
    ensures P * Place(s + j * MANTISSA, m) == P * Place(s, m) + D
  {
    PlaceMoves(s, j, m);
    Distribute(P, Place(s, m), j * MANTISSA);
  }

  /**
    Two regions have the same bounds if and only if they are the same region of the 64-bit address space, that is, if
    their starts differ by a multiple of 2^64.
   */
  lemma SameBoundsIff(e: nat, s: int, j: int, B: int, T: int)
    ensures BoundsIn(e, s, B, T) == BoundsIn(e, s + j * MANTISSA, B, T)
            <==> Pow2(e) * (j * MANTISSA) % TWO64 == 0
  {
    var P, D := Pow2(e), Pow2(e) * (j * MANTISSA);
    var base, top := P * Place(s, B), P * Place(s, T);
    ScaledPlaceMoves(P, s, j, B, D);
    ScaledPlaceMoves(P, s, j, T, D);
    ModSameIff(base, D, TWO64);
    if D % TWO64 == 0 {
      SameTop(e, base % TWO64, top, D, j);
    }
  }

  lemma SameTop(e: nat, base: int, t: int, D: int, j: int)
    requires IsU64(base) && D == Pow2(e) * (j * MANTISSA) && D % TWO64 == 0
    ensures FixTop(e, base, t % TWO65) == FixTop(e, base, (t + D) % TWO65)
  {
    var k := D / TWO64;
    DivMod(D, TWO64);
    TopMovesBy(t, k);
    var top, top' := t % TWO65, (t + D) % TWO65;
    if e < MAX_E - 1 {
      if top < top' {
        FixTopForgetsBit64(e, base, top);
      } else if top' < top {
        FixTopForgetsBit64(e, base, top');
      }
    } else {
      WideRegions(e, j);
      ModSameIff(t, D, TWO65);
    }
  }
}
