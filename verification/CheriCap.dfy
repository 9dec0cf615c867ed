/**
  Capabilities: moving the address of a capability, requesting representable lengths, and storing bounds in memory.
 */
module CheriCap {
  import opened Bits
  import opened CheriBounds
  import opened CheriRep
  import opened CheriSet

  // ---------------------------------------------------------------- addresses within the bounds

  predicate Request(base: int, top: int) { 0 <= base <= top <= TWO64 && base < TWO64 }

  predicate Within(a: int, r: Bounds) { IsU64(a) && r.base <= a <= r.top }

  /** Base of the rounded bounds in units of 2^E. */
  function BaseUnits(base: int, top: int): int
    requires Request(base, top)
  {
    var c := SetBounds(base, top);
    if c.internalE then 8 * Lower(base, Granule(c)) else base
  }

  lemma DepthAbove(E: nat, b: int, a: int)
    requires b <= a / Pow2(E) <= b + 0x2000
    ensures Depth(E, b % MANTISSA, a) == a / Pow2(E) - (b / 0x800 - 1) * 0x800
  {
    RegionOfBase(b, a / Pow2(E));
  }

  /** The address lies at or above the base b, in units, and well within the region of the base. */
  ghost predicate Placed(E: nat, B: int, a: int, b: int) {
    && Depth(E, B, a) == a / Pow2(E) - (b / 0x800 - 1) * 0x800
    && 0 <= b <= a / Pow2(E) <= b + 0x2000
    && Pow2(E) * b <= a <= Pow2(E) * (b + 0x2000)
  }

  lemma WithinWide(c: Encoded, base: int, top: int, a: int)
    requires Request(base, top) && Encodes(c, base, top) && IsU64(a)
    requires RoundDown(base, Granule(c)) <= a <= RoundUp(top, Granule(c))
    ensures Placed(c.E, c.B, a, 8 * Lower(base, Granule(c)))
  {
    var b, t := 8 * Lower(base, Granule(c)), 8 * Upper(top, Granule(c));
    RoundedEnds(c, base, top);
    UnitsBetween(a, Pow2(c.E), b, t);
    MulMonotone(Pow2(c.E), t, b + 0x2000);
    DepthAbove(c.E, b, a);
  }

  lemma WithinNarrow(base: int, top: int, a: int)
    requires Request(base, top) && top - base < 0x1000 && base <= a <= top
    ensures Placed(0, base % MANTISSA, a, base)
  {
    assert Pow2(0) == 1;
    DepthAbove(0, base, a);
  }

  /** An address within bounds lies at least one eighth of a region above the start of its region. */
  lemma DepthWithin(base: int, top: int, a: int)
    requires Request(base, top) && Within(a, Rounded(base, top))
    ensures Placed(SetBounds(base, top).E, SetBounds(base, top).B, a, BaseUnits(base, top))
  {
    SetBoundsEncodes(base, top);
    if SetBounds(base, top).internalE {
      WithinWide(SetBounds(base, top), base, top, a);
    } else {
      WithinNarrow(base, top, a);
    }
  }

  /** For a capability with its address within bounds, a positive check means that the bounds stay. */
  lemma CheckSoundWithin(base: int, top: int, a: int, i: int)
    requires Request(base, top) && Within(a, Rounded(base, top)) && IsU64(i)
    ensures var c := SetBounds(base, top);
            FastRepCheck(c.E, c.B, a, i) ==> GetBounds(c.E, c.B, c.T, U64(a + i)) == Rounded(base, top)
  {
    var c := SetBounds(base, top);
    DepthWithin(base, top, a);
    SetThenGet(base, top, a);
    SetBoundsEncodes(base, top);
    if FastRepCheck(c.E, c.B, a, i) {
      FastRepCheckExact(c.E, c.B, c.T, a, i);
    }
  }

  lemma StepBetween(E: nat, a: int, a': int) returns (i: int)
    requires E < MAX_E - 2 && IsU64(a) && IsU64(a')
    requires -0x8000_0000_0000_0000 <= a' - a < 0x8000_0000_0000_0000
    ensures i == U64(a' - a)
    ensures a' / Pow2(E) - a / Pow2(E) - 1 <= S64(i) / Pow2(E) <= a' / Pow2(E) - a / Pow2(E)
  {
    i := U64(a' - a);
    assert S64(i) == a' - a && U64(a + i) == a' && (a + S64(i)) / TWO64 == 0;
    StepInUnits(E, a, i);
  }

  lemma ShortStepAccepted(E: nat, B: int, a: int, a': int, b: int, i: int)
    requires E < MAX_E - 2 && IsU64(a) && IsU64(a')
    requires -0x8000_0000_0000_0000 <= a' - a < 0x8000_0000_0000_0000
    requires Depth(E, B, a) == a / Pow2(E) - (b / 0x800 - 1) * 0x800
    requires b <= a / Pow2(E) <= b + 0x2000 && b <= a' / Pow2(E) <= b + 0x2000
    requires i == U64(a' - a)
    ensures FastRepCheck(E, B, a, i)
  {
    var j := StepBetween(E, a, a');
    FastRepInUnits(E, B, a, i);
  }

  lemma SpanBelowHalf(E: nat, b: int)
    requires E < MAX_E - 2
    ensures Pow2(E) * (b + 0x2000) - Pow2(E) * b < 0x8000_0000_0000_0000
  {
    assert Pow2(E) <= 0x2_0000_0000_0000 by { Pow2Monotone(E, 49); Pow2At50(); assert Pow2(50) == 2 * Pow2(49); }
    Distribute(Pow2(E), b, 0x2000);
  }

  /** Moving the address to another address within bounds is never refused. */
  lemma CheckAcceptsWithin(base: int, top: int, a: int, a': int, i: int)
    requires Request(base, top) && Within(a, Rounded(base, top)) && Within(a', Rounded(base, top)) && i == U64(a' - a)
    ensures FastRepCheck(SetBounds(base, top).E, SetBounds(base, top).B, a, i)
  {
    DepthWithin(base, top, a);
    DepthWithin(base, top, a');
    PlacedAccepted(SetBounds(base, top).E, SetBounds(base, top).B, a, a', BaseUnits(base, top), i);
  }

  lemma PlacedAccepted(E: nat, B: int, a: int, a': int, b: int, i: int)
    requires IsU64(a) && IsU64(a') && Placed(E, B, a, b) && Placed(E, B, a', b) && i == U64(a' - a)
    ensures FastRepCheck(E, B, a, i)
  {
    if E < MAX_E - 2 {
      SpanBelowHalf(E, b);
      ShortStepAccepted(E, B, a, a', b, i);
    }
  }

  /** Stepping by i, with wrap-around, and back. */
  lemma StepBack(a: int, i: int)
    requires IsU64(a) && IsU64(i)
    ensures U64(U64(a + i) - a) == i
  {
    if a + i < TWO64 {
      assert U64(a + i) == a + i;
    } else {
      assert U64(a + i) == a + i - TWO64;
    }
  }

  lemma StepAcceptedWithin(base: int, top: int, a: int, a': int, i: int)
    requires Request(base, top) && Within(a, Rounded(base, top)) && Within(a', Rounded(base, top)) && IsU64(i)
    requires a' == U64(a + i)
    ensures FastRepCheck(SetBounds(base, top).E, SetBounds(base, top).B, a, i)
  {
    assert i == U64(a' - a) by { StepBack(a, i); }
    CheckAcceptsWithin(base, top, a, a', i);
  }

  // ---------------------------------------------------------------- representable lengths

  /** getRepresentableAlignmentMask. */
  function AlignmentMask(length: int): int
    requires IsU64(length)
  {
    var c := SetBounds(0, length);
    var e := if c.internalE then Effective(c.E) + 3 else 0;
    TWO64 - Pow2(e)
  }

  /** getRepresentableLength: x & mask clears the bits below the granule 2^64 - mask, in 64 bits. */
  function RepresentableLength(length: int): int
    requires IsU64(length)
  {
    var g := TWO64 - AlignmentMask(length);
    var x := U64(length + (g - 1));
    x - x % g
  }

  /** The mask leaves multiples of the granule, which divides the address space. */
  lemma MaskGranule(length: int) returns (g: int, k: int)
    requires IsU64(length)
    ensures g == TWO64 - AlignmentMask(length) == Granule(SetBounds(0, length))
    ensures g > 0 && k > 0 && g * k == TWO64
  {
    var c := SetBounds(0, length);
    SetBoundsEncodes(0, length);
    g := Granule(c);
    if c.internalE {
      k := Pow2(61 - c.E);
      GranuleIs(c.E);
      Split64(c.E + 3);
    } else {
      k := TWO64;
    }
  }

  lemma AddedMask(x: int, g: int)
    requires g > 0
    ensures (x + (g - 1)) / g == Upper(x, g)
  {
    DivMod(x, g);
    var r := if x % g == 0 then g - 1 else x % g - 1;
    assert x + (g - 1) == Upper(x, g) * g + r by { Distribute(g, x / g, 1); }
    DivModUnique(x + (g - 1), g, Upper(x, g), r);
  }

  lemma ClearedWord(y: int, g: int)
    requires g > 0 && IsU64(y)
    ensures y - y % g == y / g * g && 0 <= y / g * g < TWO64
  {
    DivMod(y, g);
    if y / g < 0 { MulMonotone(g, y / g, -1); }
  }

  lemma WrappedQuotient(z: int, g: int, k: int)
    requires g > 0 && g * k == TWO64
    ensures (z + TWO64) / g * g == z / g * g + TWO64
  {
    assert TWO64 == k * g;
    ModAddMultiple(z, k, g);
    Distribute(g, z / g, k);
  }

  lemma ClearedLow(y: int, g: int, k: int)
    requires g > 0 && g * k == TWO64 && 0 <= y < 2 * TWO64
    ensures U64(y) - U64(y) % g == y / g * g % TWO64
  {
    var z := if y < TWO64 then y else y - TWO64;
    assert U64(y) == z;
    ClearedWord(z, g);
    var cleared := z / g * g;
    if y < TWO64 {
      assert cleared % TWO64 == cleared;
    } else {
      WrappedQuotient(z, g, k);
      assert (cleared + TWO64) % TWO64 == cleared;
    }
  }

  lemma RoundUpByMask(x: int, g: int, k: int)
    requires g > 0 && k > 0 && g * k == TWO64 && IsU64(x)
    ensures var y := U64(x + (g - 1)); y - y % g == RoundUp(x, g) % TWO64
  {
    assert g <= TWO64 by { MulMonotone(g, 1, k); }
    AddedMask(x, g);
    ClearedLow(x + (g - 1), g, k);
  }

  /** The representable length is the requested length rounded up to the alignment, in 64 bits. */
  lemma RepresentableLengthIs(length: int, g: int, k: int)
    requires IsU64(length) && g == TWO64 - AlignmentMask(length) && g > 0 && k > 0 && g * k == TWO64
    ensures RepresentableLength(length) == RoundUp(length, g) % TWO64
  {
    RoundUpByMask(length, g, k);
  }

  lemma OneExponent(length: int, e: nat, e': nat)
    requires Pow2(e + 12) <= length < Pow2(e + 13) && Pow2(e' + 12) <= length < Pow2(e' + 13)
    ensures e == e'
  {
    if e' < e { Pow2Monotone(e' + 13, e + 12); }
    if e < e' { Pow2Monotone(e + 13, e' + 12); }
  }

  lemma LongEnough(length: int, e: nat)
    requires Pow2(e + 12) <= length
    ensures length >= 0x1000
  {
    Pow2Monotone(12, e + 12);
    assert Pow2(12) == 0x1000;
  }

  /** The exponent is determined by the length. */
  lemma ExponentUnique(length: int, e: nat)
    requires 0 <= length <= TWO64 && e <= MAX_E && Pow2(e + 12) <= length < Pow2(e + 13)
    ensures LeadingZeros(length) == MAX_E - e && (e != 0 || length / 0x1000 % 2 == 1)
  {
    LongEnough(length, e);
    ExponentRange(length);
    OneExponent(length, e, MAX_E - LeadingZeros(length));
  }

  lemma AlignedAt(base: int, q: int, g: int)
    requires g > 0 && base % g == 0
    ensures (base + q * g) % g == 0 && Upper(base + q * g, g) - Lower(base, g) == q
  {
    ModAddMultiple(base, q, g);
  }

  /** At the right exponent, an aligned request of 2^9 to 2^10 granules is encoded exactly. */
  lemma EncodeAligned(base: int, q: int, e: nat, g: int)
    requires g == Pow2(e + 3) && 0x200 <= q < 0x400 && 0 <= base && base % g == 0
    ensures EncodeAt(base, base + q * g, e).exact
  {
    MulMonotone(g, 0x200, q);
    MulMonotone(g, q, 0x3FF);
    AlignedAt(base, q, g);
    EncodesFirst(base, base + q * g, g);
  }

  lemma SetBoundsAt(base: int, top: int, e: nat)
    requires Request(base, top) && e <= MAX_E && Pow2(e + 12) <= top - base < Pow2(e + 13)
    ensures SetBounds(base, top) == EncodeAt(base, top, e)
  {
    ExponentUnique(top - base, e);
  }

  lemma GranulesRange(q: int, e: nat, g: int)
    requires 0x200 <= q < 0x400 && g == 8 * Pow2(e)
    ensures g == Pow2(e + 3) && Pow2(e + 12) <= q * g < Pow2(e + 13)
  {
    GranuleIs(e);
    MulMonotone(g, 0x200, q);
    MulMonotone(g, q, 0x3FF);
  }

  lemma AlignedExact(base: int, top: int, q: int, e: nat, g: int)
    requires e <= MAX_E && 0x200 <= q < 0x400 && g == 8 * Pow2(e)
    requires Request(base, top) && base % g == 0 && top == base + q * g
    ensures SetBounds(base, top).exact
  {
    GranulesRange(q, e, g);
    SetBoundsAt(base, top, e);
    EncodeAligned(base, q, e, g);
  }

  /** The granule and the exponent behind a length: either nothing is rounded, or 2^9 to 2^10 granules are used. */
  lemma LengthInGranules(length: int) returns (g: int, k: int, e: nat)
    requires IsU64(length)
    ensures g > 0 && k > 0 && g * k == TWO64 && e <= MAX_E && g == TWO64 - AlignmentMask(length)
    ensures RepresentableLength(length) == RoundUp(length, g) % TWO64
    ensures (g == 1 && length < 0x1000) || (g == 8 * Pow2(e) && 0x200 <= Upper(length, g) < 0x400)
  {
    g, k := MaskGranule(length);
    RepresentableLengthIs(length, g, k);
    SetBoundsEncodes(0, length);
    e := SetBounds(0, length).E;
  }

  /**
    The computed length is the least multiple of the granule that covers the request, unless that would be the whole
    address space: then, exactly for lengths above the mask, it wraps around to 0.
   */
  lemma RepresentableLengthLeast(length: int)
    requires IsU64(length)
    ensures var r, m := RepresentableLength(length), AlignmentMask(length);
            var g := TWO64 - m;
            if length <= m then r == Upper(length, g) * g && r % g == 0 && length <= r < length + g else r == 0 < length
  {
    var g, k, e := LengthInGranules(length);
    RoundUpWraps(length, g, k);
  }

  lemma RoundUpWraps(x: int, g: int, k: int)
    requires g > 0 && k > 0 && g * k == TWO64 && IsU64(x)
    ensures var r := RoundUp(x, g) % TWO64;
            if x <= TWO64 - g then r == Upper(x, g) * g && r % g == 0 && x <= r < x + g else r == 0 < x
  {
    Rounding(x, g);
    RoundUpWithin(x, g, k);
    ModAddMultiple(0, Upper(x, g), g);
    RoundsToAll(x, g, k);
    assert 1 <= k && g <= TWO64 by { MulMonotone(g, 1, k); }
  }

  lemma RoundsToAll(x: int, g: int, k: int)
    requires g > 0 && k > 0 && g * k == TWO64 && IsU64(x)
    ensures RoundUp(x, g) == TWO64 <==> x > TWO64 - g
    ensures RoundUp(x, g) >= 0
  {
    Rounding(x, g);
    var q := Upper(x, g);
    if RoundUp(x, g) < TWO64 {
      if q >= k { MulMonotone(g, k, q); }
      MulMonotone(g, q, k - 1);
      Distribute(g, k, -1);
    }
    if RoundUp(x, g) > TWO64 {
      RoundUpWithin(x, g, k);
    }
  }

  lemma NarrowExact(base: int, top: int)
    requires Request(base, top) && top - base < 0x1000
    ensures SetBounds(base, top).exact
  {
    ExponentRange(top - base);
    Pow2Values();
    Pow2Monotone(12, MAX_E - LeadingZeros(top - base) + 12);
  }

  lemma LengthShape(length: int) returns (g: int, q: int, e: nat)
    requires IsU64(length) && length <= AlignmentMask(length)
    ensures g > 0 && g == TWO64 - AlignmentMask(length) && RepresentableLength(length) == q * g && e <= MAX_E
    ensures (q < 0x1000 && g == 1) || (0x200 <= q < 0x400 && g == 8 * Pow2(e))
  {
    RepresentableLengthLeast(length);
    var k;
    g, k, e := LengthInGranules(length);
    q := Upper(length, g);
  }

  lemma GranulesExact(base: int, top: int, q: int, g: int, e: nat)
    requires g > 0 && e <= MAX_E && base % g == 0 && Request(base, top) && top == base + q * g
    requires (q < 0x1000 && g == 1) || (0x200 <= q < 0x400 && g == 8 * Pow2(e))
    ensures SetBounds(base, top).exact
  {
    if q < 0x1000 && g == 1 {
      NarrowExact(base, top);
    } else {
      AlignedExact(base, top, q, e, g);
    }
  }

  /**
    The length computed for a request, used at a base aligned to the mask, is met exactly, unless it wrapped around.
   */
  lemma RepresentableLengthExact(base: int, length: int)
    requires IsU64(length) && Request(base, base + RepresentableLength(length)) && length <= AlignmentMask(length)
    requires base % (TWO64 - AlignmentMask(length)) == 0
    ensures SetBounds(base, base + RepresentableLength(length)).exact
  {
    var g, q, e := LengthShape(length);
    GranulesExact(base, base + RepresentableLength(length), q, g, e);
  }
}
