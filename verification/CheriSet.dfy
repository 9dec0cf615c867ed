/**
  Setting capability bounds: the chosen encoding, and what decoding makes of it.
 */
module CheriSet {
  import opened Bits
  import opened CheriBounds

  /** What setCapBounds stores, and whether the request was met exactly. */
  datatype Encoded = Encoded(E: nat, B: int, T: int, internalE: bool, exact: bool)

  /** Index of the most significant bit. */
  function Log2(n: int): (k: nat)
    requires n > 0
    ensures Pow2(k) <= n < Pow2(k + 1)
    decreases n
  {
    if n == 1 then 0 else 1 + Log2(n / 2)
  }

  lemma Log2Below(n: int, k: nat)
    requires 0 < n < Pow2(k)
    ensures Log2(n) < k
  {
    if k <= Log2(n) {
      Pow2Monotone(k, Log2(n));
    }
  }

  /** Leading zeros of a 65-bit length, at most 52. */
  function LeadingZeros(length: int): (lz: nat)
    requires length >= 0
    ensures lz <= MAX_E
  {
    var lz :=
      if length / TWO64 % 2 == 0 then
        if length % TWO64 != 0 then
          assert Log2(length % TWO64) < 64 by { Pow2Values(); Log2Below(length % TWO64, 64); }
          63 - Log2(length % TWO64) + 1
        else 65
      else 0;
    if lz > MAX_E then MAX_E else lz
  }

  /** Fields B and T hold 14 bits; a mantissa with internal exponent is stored shifted by 3. */
  function Stored(m: int): int { m * 8 % 0x1_0000 % MANTISSA }

  /** setCapBounds with internal exponent: the length may overflow by rounding, then the exponent goes up by one. */
  function EncodeAt(base: int, top: int, e: nat): Encoded {
    var g := Pow2(e + 3);
    var lostBase, lostTop := base % g != 0, top % g != 0;
    var B := base / g % MANTISSA;
    var T := top / g % MANTISSA + Bit(lostTop);
    if (T - B) % 0x1_0000 / 0x400 % 2 == 1 then
      var g' := Pow2(e + 4);
      var lostBase', lostTop' := lostBase || B % 2 == 1, lostTop || T % 2 == 1;
      Encoded(e + 1, Stored(base / g' % MANTISSA), Stored(top / g' % MANTISSA + Bit(lostTop')), true,
              !(lostBase' || lostTop'))
    else
      Encoded(e, Stored(B), Stored(T), true, !(lostBase || lostTop))
  }

  /** setCapBounds. */
  function SetBounds(base: int, top: int): Encoded
    requires 0 <= base <= top
  {
    var length := top - base;
    var e := MAX_E - LeadingZeros(length);
    var ie := e != 0 || length / 0x1000 % 2 == 1;
    if ie then EncodeAt(base, top, e) else Encoded(e, base % MANTISSA, top % MANTISSA, false, true)
  }

  /** Bounds are multiples of this. */
  function Granule(c: Encoded): int { if c.internalE then 8 * Pow2(c.E) else 1 }

  function RoundDown(x: int, g: int): int
    requires g > 0
  {
    x / g * g
  }

  function RoundUp(x: int, g: int): int
    requires g > 0
  {
    (x / g + Bit(x % g != 0)) * g
  }

  // ---------------------------------------------------------------- decoding what was placed

  /** The bits of a base that decide where its region starts. */
  lemma EighthOf(b: int) returns (m: int, j: int)
    ensures b / 0x800 == 8 * m + j && 0 <= j < 8 && R3(b % MANTISSA) == if j == 0 then 7 else j - 1
  {
    m, j := Octant(b);
  }

  /** The region of a capability starts one eighth of a region below its base, rounded down. */
  lemma RegionOfBase(b: int, u: int)
    requires b <= u <= b + 0x2000
    ensures RegionStart(b % MANTISSA, u) == (b / 0x800 - 1) * 0x800
    ensures (u - R3(b % MANTISSA) * 0x800) % MANTISSA == u - (b / 0x800 - 1) * 0x800
  {
    var m, j := EighthOf(b);
    var s := (b / 0x800 - 1) * 0x800;
    DivModUnique(u - R3(b % MANTISSA) * 0x800, MANTISSA, if j == 0 then m - 1 else m, u - s);
  }

  lemma PlaceInside(s: int, t: int)
    requires s <= t < s + MANTISSA
    ensures Place(s, t % MANTISSA) == t
  {
    DivModUnique(t % MANTISSA - s, MANTISSA, -(t / MANTISSA), t - s);
  }

  lemma NoFix(e: nat, base: int, top: int)
    requires 0 <= base <= top <= TWO64 && base < TWO64
    requires e < MAX_E - 1 ==> top - base < 0x8000_0000_0000_0000
    ensures FixTop(e, base, top) == top
  {
  }

  /** Bounds b and t, in units of 2^E and close enough together, survive decoding at any address between them. */
  lemma DecodePlaced(E: nat, b: int, t: int, a: int)
    requires E <= MAX_E && IsU64(a)
    requires 0 <= b <= t <= b + 0x2000 && b <= a / Pow2(E) <= t
    requires Pow2(E) * t <= TWO64 && Pow2(E) * b < TWO64
    requires E < MAX_E - 1 ==> Pow2(E) * t - Pow2(E) * b < 0x8000_0000_0000_0000
    ensures GetBounds(E, b % MANTISSA, t % MANTISSA, a) == Bounds(Pow2(E) * b, Pow2(E) * t)
  {
    var P, s := Pow2(E), (b / 0x800 - 1) * 0x800;
    GetBoundsIsRegion(E, b % MANTISSA, t % MANTISSA, a);
    RegionOfBase(b, a / P);
    PlaceInside(s, b);
    PlaceInside(s, t);
    MulMonotone(P, 0, b);
    MulMonotone(P, b, t);
    DivModUnique(P * b, TWO64, 0, P * b);
    DivModUnique(P * t, TWO65, 0, P * t);
    NoFix(E, P * b, P * t);
  }

  // ---------------------------------------------------------------- the chosen exponent

  lemma LeadingZerosOf(length: int)
    requires 0 < length < TWO64
    ensures var k := Log2(length); LeadingZeros(length) == if k < 12 then MAX_E else 64 - k
  {
    assert length / TWO64 == 0 && length % TWO64 == length;
    Pow2Values();
    Log2Below(length, 64);
  }

  lemma ShortLength(length: int)
    requires 0 < length < TWO64 && Log2(length) < 12
    ensures LeadingZeros(length) == MAX_E && length < 0x1000
  {
    LeadingZerosOf(length);
    Pow2Monotone(Log2(length) + 1, 12);
    assert Pow2(12) == 0x1000;
  }

  lemma Bit12(length: int)
    requires length > 0 && Log2(length) == 12
    ensures length / 0x1000 % 2 == 1
  {
    assert Pow2(12) == 0x1000 && Pow2(13) == 0x2000;
  }

  /** The exponent puts the most significant bit of the length at bit 12 of the mantissa, if it is not below. */
  lemma ExponentRange(length: int)
    requires 0 <= length <= TWO64
    ensures var e := MAX_E - LeadingZeros(length);
            if e != 0 || length / 0x1000 % 2 == 1
            then Pow2(e + 12) <= length < Pow2(e + 13)
            else length < 0x1000
  {
    if length == TWO64 {
      assert LeadingZeros(length) == 0;
      Pow2Values();
    } else if length > 0 && Log2(length) < 12 {
      ShortLength(length);
    } else if length > 0 {
      LeadingZerosOf(length);
      if Log2(length) == 12 {
        Bit12(length);
      }
    }
  }

  /** A length of one to two times 2^9 granules, once its ends are rounded outwards. */
  lemma RoundedLength(base: int, top: int, g: int)
    requires g > 0 && 0x200 * g <= top - base < 0x400 * g
    ensures 0x200 <= top / g + Bit(top % g != 0) - base / g <= 0x401
  {
    DivMod(base, g);
    DivMod(top, g);
    var L := top / g + Bit(top % g != 0) - base / g;
    assert L * g == (top / g) * g + Bit(top % g != 0) * g - (base / g) * g by {
      Distribute(g, top / g + Bit(top % g != 0), -(base / g));
      Distribute(g, top / g, Bit(top % g != 0));
    }
    if L < 0x200 {
      MulMonotone(g, L, 0x1FF);
    }
    if L > 0x401 {
      MulMonotone(g, 0x402, L);
    }
  }

  /** The overflow test on truncated mantissas decides whether the rounded length reaches 2^10 granules. */
  lemma OverflowTest(qb: int, qt: int, lost: int)
    requires 0 <= lost <= 1 && 0 <= qt + lost - qb < 0x800
    ensures (qt % MANTISSA + lost - qb % MANTISSA) % 0x1_0000 / 0x400 % 2 == 1 <==> qt + lost - qb >= 0x400
  {
    var L := qt + lost - qb;
    var d := qt % MANTISSA + lost - qb % MANTISSA;
    assert d == L - MANTISSA * (qt / MANTISSA - qb / MANTISSA);
    TruncatedLength(L, d, qt / MANTISSA - qb / MANTISSA);
  }

  lemma TruncatedLength(L: int, d: int, j: int)
    requires 0 <= L < 0x800 && d == L - MANTISSA * j && -MANTISSA < d <= MANTISSA
    ensures d % 0x1_0000 / 0x400 % 2 == 1 <==> L >= 0x400
  {
    var h := if L >= 0x400 then 1 else 0;
    if j < 0 {
      assert L == 0 && d == MANTISSA;
    } else if j == 0 {
      DivModUnique(d, 0x1_0000, 0, L);
      DivModUnique(L, 0x400, h, L - 0x400 * h);
    } else {
      DivModUnique(d, 0x1_0000, -1, L + 0xC000);
      DivModUnique(L + 0xC000, 0x400, 0x30 + h, L - 0x400 * h);
    }
  }

  lemma StoredIs(q: int, lost: int)
    requires 0 <= lost <= 1
    ensures Stored(q % MANTISSA + lost) == 8 * (q + lost) % MANTISSA
  {
    var m := q % MANTISSA + lost;
    assert 8 * (q + lost) == 8 * m + (8 * (q / MANTISSA)) * MANTISSA;
    ModAddMultiple(8 * m, 8 * (q / MANTISSA), MANTISSA);
    var h := m * 8 / 0x1_0000;
    assert m * 8 == m * 8 % 0x1_0000 + (4 * h) * MANTISSA;
    ModAddMultiple(m * 8 % 0x1_0000, 4 * h, MANTISSA);
  }

  /** Rounding to twice the granule. */
  lemma Doubled(x: int, g: int)
    requires g > 0
    ensures x / (2 * g) == x / g / 2
    ensures x % (2 * g) != 0 <==> x % g != 0 || x / g % 2 == 1
  {
    DivDiv(x, g, 2);
    DivMod(x, g);
    DivMod(x, 2 * g);
    var q := x / g;
    assert q * g == (q / 2) * (2 * g) + (q % 2) * g by { Distribute(g, q / 2 * 2, q % 2); assert g * (q / 2 * 2) == (q / 2) * (2 * g); }
  }

  // ---------------------------------------------------------------- what is encoded

  /** Ends of the request, rounded outwards, in granules. */
  function Lower(base: int, g: int): int
    requires g > 0
  {
    base / g
  }

  function Upper(top: int, g: int): int
    requires g > 0
  {
    top / g + Bit(top % g != 0)
  }

  /** `c` encodes the request with granule g = 8 * 2^E. */
  ghost predicate Encodes(c: Encoded, base: int, top: int) {
    var g := Granule(c);
    && c.internalE && c.E <= MAX_E
    && c.B == 8 * Lower(base, g) % MANTISSA
    && c.T == 8 * Upper(top, g) % MANTISSA
    && (c.exact <==> base % g == 0 && top % g == 0)
    && 0x200 <= Upper(top, g) - Lower(base, g) < 0x400
    && 0x100 * g <= top - base
  }

  lemma GranuleIs(e: nat)
    ensures Pow2(e + 3) == 8 * Pow2(e) && Pow2(e + 4) == 16 * Pow2(e)
    ensures Pow2(e + 12) == 0x200 * Pow2(e + 3) && Pow2(e + 13) == 0x400 * Pow2(e + 3)
  {
    assert Pow2(9) == 0x200 && Pow2(10) == 0x400 && Pow2(3) == 8 && Pow2(4) == 16;
    Pow2Add(e, 3);
    Pow2Add(e, 4);
    Pow2Add(e + 3, 9);
    Pow2Add(e + 3, 10);
  }

  /** The encoding at the exponent first chosen, if the rounded length does not overflow. */
  lemma EncodesFirst(base: int, top: int, g: int)
    requires 0 <= base <= top && g > 0 && 0x200 * g <= top - base < 0x400 * g
    ensures var T, B := top / g % MANTISSA + Bit(top % g != 0), base / g % MANTISSA;
            && ((T - B) % 0x1_0000 / 0x400 % 2 == 1 <==> Upper(top, g) - Lower(base, g) >= 0x400)
            && Stored(B) == 8 * Lower(base, g) % MANTISSA
            && Stored(T) == 8 * Upper(top, g) % MANTISSA
            && 0x200 <= Upper(top, g) - Lower(base, g) <= 0x401
  {
    RoundedLength(base, top, g);
    OverflowTest(base / g, top / g, Bit(top % g != 0));
    StoredIs(base / g, 0);
    StoredIs(top / g, Bit(top % g != 0));
  }

  lemma Parity(q: int, c: int)
    ensures (q % MANTISSA + c) % 2 == (q + c) % 2
  {
    assert q + c == q % MANTISSA + c + (0x2000 * (q / MANTISSA)) * 2;
    ModAddMultiple(q % MANTISSA + c, 0x2000 * (q / MANTISSA), 2);
  }

  lemma HalvedLength(qb: int, qt: int, lost: bool)
    requires 0x400 <= qt + Bit(lost) - qb <= 0x401
    ensures 0x200 <= qt / 2 + Bit(lost || qt % 2 == 1) - qb / 2 <= 0x201
    ensures lost || (qt % MANTISSA + Bit(lost)) % 2 == 1 <==> lost || qt % 2 == 1
    ensures qb % MANTISSA % 2 == qb % 2
  {
    Parity(qt, Bit(lost));
    Parity(qb, 0);
  }

  /** The encoding one exponent higher, if it does. */
  lemma EncodesSecond(base: int, top: int, g: int)
    requires 0 <= base <= top && g > 0
    requires 0x400 <= Upper(top, g) - Lower(base, g) <= 0x401
    ensures var T, B := top / g % MANTISSA + Bit(top % g != 0), base / g % MANTISSA;
            var lostBase', lostTop' := base % g != 0 || B % 2 == 1, top % g != 0 || T % 2 == 1;
            var h := 2 * g;
            && (lostBase' <==> base % h != 0)
            && (lostTop' <==> top % h != 0)
            && Stored(base / h % MANTISSA) == 8 * Lower(base, h) % MANTISSA
            && Stored(top / h % MANTISSA + Bit(lostTop')) == 8 * Upper(top, h) % MANTISSA
            && 0x200 <= Upper(top, h) - Lower(base, h) <= 0x201
  {
    Doubled(base, g);
    Doubled(top, g);
    HalvedLength(base / g, top / g, top % g != 0);
    StoredIs(base / (2 * g), 0);
    StoredIs(top / (2 * g), Bit(top % (2 * g) != 0));
  }

  lemma FirstEncodes(base: int, top: int, e: nat, g: int)
    requires 0 <= base <= top && e <= MAX_E && g == Pow2(e + 3) == 8 * Pow2(e)
    requires 0x200 * g <= top - base < 0x400 * g && Upper(top, g) - Lower(base, g) < 0x400
    ensures Encodes(EncodeAt(base, top, e), base, top)
  {
    EncodesFirst(base, top, g);
  }

  lemma SecondEncodes(base: int, top: int, e: nat, g: int)
    requires 0 <= base <= top && e < MAX_E && g == Pow2(e + 3) == 8 * Pow2(e) && Pow2(e + 4) == 16 * Pow2(e)
    requires 0x200 * g <= top - base < 0x400 * g && Upper(top, g) - Lower(base, g) >= 0x400
    ensures Encodes(EncodeAt(base, top, e), base, top)
  {
    EncodesFirst(base, top, g);
    EncodesSecond(base, top, g);
    assert Pow2(e + 1) == 2 * Pow2(e);
  }

  lemma EncodeAtEncodes(base: int, top: int, e: nat)
    requires 0 <= base <= top <= TWO64 && e <= MAX_E
    requires Pow2(e + 12) <= top - base < Pow2(e + 13)
    ensures Encodes(EncodeAt(base, top, e), base, top)
  {
    var g := Pow2(e + 3);
    GranuleIs(e);
    if Upper(top, g) - Lower(base, g) < 0x400 {
      FirstEncodes(base, top, e, g);
    } else {
      NoOverflowAtMax(base, top, e);
      SecondEncodes(base, top, e, g);
    }
  }

  lemma SetBoundsEncodes(base: int, top: int)
    requires 0 <= base <= top <= TWO64 && base < TWO64
    ensures var c := SetBounds(base, top);
            if c.internalE then Encodes(c, base, top)
            else c == Encoded(0, base % MANTISSA, top % MANTISSA, false, true) && top - base < 0x1000
  {
    var length := top - base;
    var e := MAX_E - LeadingZeros(length);
    ExponentRange(length);
    if e != 0 || length / 0x1000 % 2 == 1 {
      EncodeAtEncodes(base, top, e);
    }
  }

  /** The whole address space does not need a higher exponent. */
  lemma NoOverflowAtMax(base: int, top: int, e: nat)
    requires 0 <= base <= top <= TWO64 && e <= MAX_E
    requires Pow2(e + 12) <= top - base && Upper(top, Pow2(e + 3)) - Lower(base, Pow2(e + 3)) >= 0x400
    ensures e < MAX_E
  {
    if e == MAX_E {
      Pow2Values();
      assert Pow2(64) == TWO64;
      GranuleIs(MAX_E);
      assert base == 0 && top == TWO64;
      DivModUnique(top, Pow2(55), 0x200, 0);
      assert false;
    }
  }

  // ---------------------------------------------------------------- main results

  lemma UnitsBetween(a: int, P: int, b: int, t: int)
    requires P > 0 && P * b <= a <= P * t
    ensures b <= a / P <= t
  {
    DivMod(a, P);
    if a / P < b {
      MulMonotone(P, a / P, b - 1);
      Distribute(P, b, -1);
    }
    if t < a / P {
      MulMonotone(P, t + 1, a / P);
      Distribute(P, t, 1);
    }
  }

  lemma RoundUpWithin(top: int, g: int, k: int)
    requires g > 0 && k > 0 && g * k == TWO64 && 0 <= top <= TWO64
    ensures Upper(top, g) * g <= TWO64
  {
    DivMod(top, g);
    if Upper(top, g) > k {
      MulMonotone(g, k + 1, Upper(top, g));
      Distribute(g, k, 1);
      if top % g == 0 {
        assert false;
      }
      MulMonotone(g, k, top / g);
    } else {
      MulMonotone(g, Upper(top, g), k);
    }
  }

  /** The rounded ends in units of 2^E: not negative, within the address space, and less than half of it apart. */
  lemma RoundedEnds(c: Encoded, base: int, top: int)
    requires 0 <= base <= top <= TWO64 && base < TWO64 && Encodes(c, base, top)
    ensures var P, b, t := Pow2(c.E), 8 * Lower(base, Granule(c)), 8 * Upper(top, Granule(c));
            && P * b == RoundDown(base, Granule(c)) && P * t == RoundUp(top, Granule(c))
            && 0 <= b <= t <= b + 0x2000 && P * t <= TWO64 && P * b <= base
  {
    var g := Granule(c);
    EndsInUnits(Pow2(c.E), base, top);
    assert g * Pow2(61 - c.E) == TWO64 by { GranuleIs(c.E); Split64(c.E + 3); }
    RoundUpWithin(top, g, Pow2(61 - c.E));
  }

  lemma EndsInUnits(P: int, base: int, top: int)
    requires P > 0 && 0 <= base
    ensures P * (8 * Lower(base, 8 * P)) == RoundDown(base, 8 * P) <= base && 0 <= Lower(base, 8 * P)
    ensures P * (8 * Upper(top, 8 * P)) == RoundUp(top, 8 * P)
  {
    DivMod(base, 8 * P);
    if base / (8 * P) < 0 {
      MulMonotone(8 * P, base / (8 * P), -1);
    }
  }

  lemma RoundedSpan(E: nat, b: int, t: int)
    requires E < MAX_E - 1 && b <= t < b + 0x2000
    ensures Pow2(E) * t - Pow2(E) * b < 0x8000_0000_0000_0000
  {
    assert Pow2(E) <= 0x4_0000_0000_0000 by { Pow2Monotone(E, 50); Pow2At50(); }
    Distribute(Pow2(E), t, -b);
    MulMonotone(t - b, Pow2(E), 0x4_0000_0000_0000);
  }

  /** Decoding the encoded request at any address within the rounded bounds yields the rounded bounds. */
  lemma DecodeWide(c: Encoded, base: int, top: int, a: int)
    requires 0 <= base <= top <= TWO64 && base < TWO64 && Encodes(c, base, top) && IsU64(a)
    requires RoundDown(base, Granule(c)) <= a <= RoundUp(top, Granule(c))
    ensures GetBounds(c.E, c.B, c.T, a) == Bounds(RoundDown(base, Granule(c)), RoundUp(top, Granule(c)))
  {
    var b, t := 8 * Lower(base, Granule(c)), 8 * Upper(top, Granule(c));
    RoundedEnds(c, base, top);
    UnitsBetween(a, Pow2(c.E), b, t);
    if c.E < MAX_E - 1 {
      RoundedSpan(c.E, b, t);
    }
    DecodePlaced(c.E, b, t, a);
  }

  lemma Pow2At50()
    ensures Pow2(50) == 0x4_0000_0000_0000
  {
    Pow2Values();
    Pow2Add(50, 14);
  }

  /** Lengths below 2^12 are encoded exactly. */
  lemma DecodeNarrow(base: int, top: int, a: int)
    requires 0 <= base <= top <= TWO64 && base < TWO64 && top - base < 0x1000 && base <= a <= top && IsU64(a)
    ensures GetBounds(0, base % MANTISSA, top % MANTISSA, a) == Bounds(base, top)
  {
    assert Pow2(0) == 1;
    DecodePlaced(0, base, top, a);
  }

  lemma Rounding(x: int, g: int)
    requires g > 0
    ensures RoundDown(x, g) <= x < RoundDown(x, g) + g
    ensures x <= RoundUp(x, g) < x + g
    ensures RoundDown(x, g) == x <==> x % g == 0
    ensures RoundUp(x, g) == x <==> x % g == 0
  {
    DivMod(x, g);
    Distribute(g, x / g, Bit(x % g != 0));
  }

  /** The rounded bounds of a request. */
  function Rounded(base: int, top: int): Bounds
    requires 0 <= base <= top <= TWO64 && base < TWO64
  {
    var g := Granule(SetBounds(base, top));
    Bounds(RoundDown(base, g), RoundUp(top, g))
  }

  /**
    Set, then get: the base is rounded down and the top rounded up to the chosen granule, whatever address within
    these bounds the capability has; on each side less than 1/256 of the requested length is added.
   */
  lemma SetThenGet(base: int, top: int, a: int)
    requires 0 <= base <= top <= TWO64 && base < TWO64 && IsU64(a)
    requires Rounded(base, top).base <= a <= Rounded(base, top).top
    ensures var c := SetBounds(base, top);
            GetBounds(c.E, c.B, c.T, a) == Rounded(base, top)
    ensures var r := Rounded(base, top);
            && 0 <= r.base <= base && top <= r.top <= TWO64
            && (r != Bounds(base, top) ==> 0x100 * (base - r.base) < top - base && 0x100 * (r.top - top) < top - base)
  {
    var c := SetBounds(base, top);
    SetBoundsEncodes(base, top);
    Rounding(base, Granule(c));
    Rounding(top, Granule(c));
    if c.internalE {
      DecodeWide(c, base, top, a);
      RoundedEnds(c, base, top);
      MulMonotone(Pow2(c.E), 0, 8 * Lower(base, Granule(c)));
    } else {
      DecodeNarrow(base, top, a);
    }
  }

  /** setCapBounds reports an exact result if and only if decoding returns the request unchanged. */
  lemma ExactIff(base: int, top: int)
    requires 0 <= base <= top <= TWO64 && base < TWO64
    ensures var c := SetBounds(base, top);
            c.exact <==> GetBounds(c.E, c.B, c.T, base) == Bounds(base, top)
  {
    var c := SetBounds(base, top);
    SetBoundsEncodes(base, top);
    Rounding(base, Granule(c));
    Rounding(top, Granule(c));
    SetThenGet(base, top, base);
  }
}
