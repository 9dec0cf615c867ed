/**
  Narrowing: bounds requested within the bounds of a capability stay within them after rounding.
 */
module CheriNarrow {
  import opened Bits
  import opened CheriBounds
  import opened CheriSet
  import opened CheriCap

  /** Rounding does not go past a multiple of the granule. */
  lemma FloorAbove(x: int, low: int, g: int, q: int, r: int)
    requires g > 0 && x == q * g + r && r < g && low * g <= x
    ensures low <= q && low * g <= q * g
  {
    if q < low {
      MulMonotone(g, q + 1, low);
      Distribute(g, q, 1);
    }
    MulMonotone(g, low, q);
  }

  lemma CeilingBelow(x: int, high: int, g: int, q: int, r: int, u: int)
    requires g > 0 && x == q * g + r && 0 <= r && x <= high * g && u == q + Bit(r != 0)
    ensures u <= high && u * g <= high * g
  {
    if u > high {
      MulMonotone(g, high, q);
      if r == 0 {
        MulMonotone(g, high + 1, q);
        Distribute(g, high, 1);
      }
    }
    MulMonotone(g, u, high);
  }

  lemma RoundingStops(base: int, top: int, low: int, high: int, g: int)
    requires g > 0 && low * g <= base && top <= high * g
    ensures low <= Lower(base, g) && Upper(top, g) <= high
    ensures low * g <= RoundDown(base, g) && RoundUp(top, g) <= high * g
  {
    DivMod(base, g);
    DivMod(top, g);
    FloorAbove(base, low, g, base / g, base % g);
    CeilingBelow(top, high, g, top / g, top % g, Upper(top, g));
  }

  /** The exponent of a wide request before a possible increment. */
  lemma FirstExponent(base: int, top: int) returns (e: nat)
    requires Request(base, top) && SetBounds(base, top).internalE
    ensures e <= MAX_E && Pow2(e + 12) <= top - base < Pow2(e + 13)
    ensures SetBounds(base, top) == EncodeAt(base, top, e)
  {
    e := MAX_E - LeadingZeros(top - base);
    ExponentRange(top - base);
  }

  /** The exponent is only incremented if the rounded length overflows. */
  lemma ExponentAfter(base: int, top: int, e: nat)
    requires 0 <= base <= top && Pow2(e + 12) <= top - base < Pow2(e + 13)
    ensures EncodeAt(base, top, e).E <= e + 1
    ensures Upper(top, Pow2(e + 3)) - Lower(base, Pow2(e + 3)) < 0x400 ==> EncodeAt(base, top, e).E == e
  {
    GranuleIs(e);
    EncodesFirst(base, top, Pow2(e + 3));
  }

  lemma PowerOrder(d: nat, e: nat)
    requires Pow2(d) < Pow2(e)
    ensures d < e
  {
    if e <= d { Pow2Monotone(e, d); }
  }

  lemma SpanInGranules(base: int, top: int, low: int, high: int, g: int)
    requires g > 0 && high - low < 0x400 && low * g <= base && top <= high * g
    ensures top - base < 0x400 * g
  {
    Distribute(g, high, -low);
    MulMonotone(g, high - low, 0x3FF);
  }

  /** A request of the given exponent within low..high granules of a higher or equal exponent keeps to that exponent. */
  lemma ExponentWithin(base: int, top: int, e: nat, E: nat, low: int, high: int)
    requires 0 <= base <= top && Pow2(e + 12) <= top - base < Pow2(e + 13)
    requires high - low < 0x400 && low * Pow2(E + 3) <= base && top <= high * Pow2(E + 3)
    ensures EncodeAt(base, top, e).E <= E
  {
    var g := Pow2(E + 3);
    SpanInGranules(base, top, low, high, g);
    GranuleIs(E);
    PowerOrder(e + 12, E + 13);
    RoundingStops(base, top, low, high, g);
    ExponentAfter(base, top, e);
  }

  lemma CoarserMultiple(m: int, e: nat, E: nat) returns (n: int)
    requires e <= E
    ensures m * (8 * Pow2(E)) == n * (8 * Pow2(e))
  {
    n := m * Pow2(E - e);
    Pow2Add(e, E - e);
    assert m * (8 * (Pow2(e) * Pow2(E - e))) == (m * Pow2(E - e)) * (8 * Pow2(e));
  }

  predicate Inside(r: Bounds, outer: Bounds) { outer.base <= r.base && r.top <= outer.top }

  /** Bounds of the form that setCapBounds produces: narrow, or less than 2^10 granules. */
  ghost predicate Shaped(r: Bounds, E: nat, low: int, high: int) {
    || r.top - r.base < 0x1000
    || (r == Bounds(low * (8 * Pow2(E)), high * (8 * Pow2(E))) && high - low < 0x400)
  }

  lemma RoundedShaped(base: int, top: int) returns (E: nat, low: int, high: int)
    requires Request(base, top)
    ensures Shaped(Rounded(base, top), E, low, high)
  {
    var c := SetBounds(base, top);
    SetBoundsEncodes(base, top);
    E, low, high := c.E, Lower(base, Granule(c)), Upper(top, Granule(c));
  }

  lemma NarrowerWide(outer: Bounds, E: nat, low: int, high: int, base: int, top: int)
    requires Request(base, top) && SetBounds(base, top).internalE
    requires outer == Bounds(low * (8 * Pow2(E)), high * (8 * Pow2(E))) && high - low < 0x400
    requires outer.base <= base && top <= outer.top
    ensures Inside(Rounded(base, top), outer)
  {
    var c := SetBounds(base, top);
    var e := FirstExponent(base, top);
    assert c.E <= E by { GranuleIs(E); ExponentWithin(base, top, e, E, low, high); }
    var low' := CoarserMultiple(low, c.E, E);
    var high' := CoarserMultiple(high, c.E, E);
    RoundingStops(base, top, low', high', 8 * Pow2(c.E));
  }

  /** A request of at least 2^12 bytes does not fit in bounds of fewer. */
  lemma WideIsLong(base: int, top: int)
    requires Request(base, top) && SetBounds(base, top).internalE
    ensures top - base >= 0x1000
  {
    var e := FirstExponent(base, top);
    Pow2Monotone(12, e + 12);
    assert Pow2(12) == 0x1000;
  }

  lemma NarrowerThan(outer: Bounds, E: nat, low: int, high: int, base: int, top: int)
    requires Request(base, top) && Shaped(outer, E, low, high) && outer.base <= base && top <= outer.top
    ensures Inside(Rounded(base, top), outer)
  {
    if SetBounds(base, top).internalE {
      WideIsLong(base, top);
      NarrowerWide(outer, E, low, high, base, top);
    }
  }

  /** Requesting bounds within the bounds of a capability never yields more than those. */
  lemma Narrower(base0: int, top0: int, base: int, top: int)
    requires Request(base0, top0) && Request(base, top)
    requires Rounded(base0, top0).base <= base && top <= Rounded(base0, top0).top
    ensures Inside(Rounded(base, top), Rounded(base0, top0))
  {
    var E, low, high := RoundedShaped(base0, top0);
    NarrowerThan(Rounded(base0, top0), E, low, high, base, top);
  }
}
