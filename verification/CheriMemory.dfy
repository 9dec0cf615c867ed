/**
  Capabilities as they are kept in memory: the exponent replaces the low bits of the mantissas, and the top two bits
  of T are left out.
 */
module CheriMemory {
  import opened Bits
  import opened CheriBounds
  import opened CheriSet
  import opened CheriCap

  /** The bounds of a capability, with the exponent as a field of its own and all bits of T. */
  datatype Decoded = Decoded(internalE: bool, E: nat, B: int, T: int)

  /** The bounds of a capability in memory: 14 bits of B, 12 of T. */
  datatype Packed = Packed(internalE: bool, T: int, B: int)

  predicate PackedOk(c: Packed) { 0 <= c.T < 0x1000 && IsMantissa(c.B) }

  /** toEncCap. */
  function ToEncCap(c: Decoded): Packed {
    var tHi, bHi := c.T / 8 % 0x200, c.B / 8 % 0x800;
    var tLo := if c.internalE then c.E / 8 % 8 else c.T % 8;
    var bLo := if c.internalE then c.E % 8 else c.B % 8;
    Packed(c.internalE, tHi * 8 + tLo, bHi * 8 + bLo)
  }

  /** The mantissa without the exponent bits. */
  function Cleared(m: int, internalE: bool): int { if internalE then m - m % 8 else m }

  /** The top two bits of T. */
  function TopBits(B: int, T: int, internalE: bool): int {
    (B / 0x1000 % 4 + Bit(internalE) + Bit(T < B % 0x1000)) % 4
  }

  /** toCapability. */
  function ToCapability(c: Packed): Decoded
    requires PackedOk(c)
  {
    var E := if c.internalE then c.T % 8 * 8 + c.B % 8 else 0;
    var T, B := Cleared(c.T, c.internalE), Cleared(c.B, c.internalE);
    Decoded(c.internalE, E, B, T + TopBits(B, T, c.internalE) * 0x1000)
  }

  /** Bits above the low 12 do not show in what packing takes from T. */
  lemma Low12(T: int, k: int)
    requires 0 <= T < 0x1000
    ensures (T + k * 0x1000) % 8 == T % 8 && (T + k * 0x1000) / 8 % 0x200 == T / 8
  {
    DivModUnique(T + k * 0x1000, 8, T / 8 + k * 0x200, T % 8);
    DivModUnique(T / 8 + k * 0x200, 0x200, k, T / 8);
  }

  lemma ExponentDigits(t: int, b: int)
    requires 0 <= t < 8 && 0 <= b < 8
    ensures (t * 8 + b) / 8 % 8 == t && (t * 8 + b) % 8 == b
  {
  }

  lemma Octet(x: int)
    ensures (x - x % 8) / 8 == x / 8 && x / 8 * 8 + x % 8 == x
  {
  }

  lemma HighPart(x: int, m: int)
    requires 0 <= x < 8 * m
    ensures 0 <= x / 8 < m && x / 8 % m == x / 8
  {
  }

  lemma RepackT(T: int, k: int, internalE: bool)
    requires 0 <= T < 0x1000
    ensures (Cleared(T, internalE) + k * 0x1000) / 8 % 0x200 * 8 + T % 8 == T
    ensures !internalE ==> (T + k * 0x1000) % 8 == T % 8
  {
    Low12(Cleared(T, internalE), k);
    Octet(T);
  }

  lemma RepackB(B: int, internalE: bool)
    requires IsMantissa(B)
    ensures Cleared(B, internalE) / 8 % 0x800 * 8 + B % 8 == B
  {
    Octet(B);
    HighPart(B, 0x800);
  }

  /** Every word in memory is what packing its capability yields: nothing is lost by loading and storing it. */
  lemma LoadThenStore(c: Packed)
    requires PackedOk(c)
    ensures ToEncCap(ToCapability(c)) == c
  {
    RepackT(c.T, TopBits(Cleared(c.B, c.internalE), Cleared(c.T, c.internalE), c.internalE), c.internalE);
    RepackB(c.B, c.internalE);
    ExponentDigits(c.T % 8, c.B % 8);
  }

  /** The omitted bits of T follow from B if the mantissas are from 2^12 up to 2^13 apart, or less than 2^12. */
  lemma TopBitsFollow(B: int, D: int, msb: int)
    requires IsMantissa(B) && 0 <= msb <= 1 && msb * 0x1000 <= D < (msb + 1) * 0x1000
    ensures var T := (B + D) % MANTISSA;
            T == T % 0x1000 + (B / 0x1000 % 4 + msb + Bit(T % 0x1000 < B % 0x1000)) % 4 * 0x1000
  {
  }

  lemma Apart(b: int, t: int)
    ensures t % MANTISSA == (b % MANTISSA + (t - b)) % MANTISSA
  {
    DivMod(b, MANTISSA);
    ModAddMultiple(b % MANTISSA + (t - b), b / MANTISSA, MANTISSA);
  }

  lemma MultipleOf8(q: int)
    ensures 8 * q % MANTISSA % 8 == 0
  {
    DivModUnique(8 * q, MANTISSA, q / 0x800, 8 * (q % 0x800));
  }

  /** The distance of two mantissas is what packing relies on. */
  ghost predicate Distance(c: Encoded, D: int) {
    && IsMantissa(c.B) && c.T == (c.B + D) % MANTISSA && c.E < 64
    && (if c.internalE then c.B % 8 == 0 && c.T % 8 == 0 && 0x1000 <= D < 0x2000 else c.E == 0 && 0 <= D < 0x1000)
  }

  lemma WideDistance(c: Encoded, qb: int, qt: int)
    requires c.internalE && c.E <= MAX_E && c.B == 8 * qb % MANTISSA && c.T == 8 * qt % MANTISSA && 0x200 <= qt - qb < 0x400
    ensures Distance(c, 8 * qt - 8 * qb)
  {
    Apart(8 * qb, 8 * qt);
    MultipleOf8(qb);
    MultipleOf8(qt);
  }

  /** Mantissas that setCapBounds chose are that far apart. */
  lemma MantissaDistance(base: int, top: int) returns (D: int)
    requires Request(base, top)
    ensures Distance(SetBounds(base, top), D)
  {
    var c := SetBounds(base, top);
    SetBoundsEncodes(base, top);
    if c.internalE {
      var qb, qt := Lower(base, Granule(c)), Upper(top, Granule(c));
      D := 8 * qt - 8 * qb;
      WideDistance(c, qb, qt);
    } else {
      D := top - base;
      Apart(base, top);
    }
  }

  lemma PackedParts(low: int, T: int, tLo: int)
    requires IsMantissa(T) && low == T % 0x1000 && 0 <= tLo < 8
    ensures var t := T / 8 % 0x200 * 8 + tLo; 0 <= t < 0x1000 && t % 8 == tLo && t - tLo == low - low % 8
    ensures T % 8 == low % 8
  {
    Low12(low, T / 0x1000);
    DivModUnique(low / 8 * 8 + tLo, 8, low / 8, tLo);
  }

  lemma PackedBase(B: int, bLo: int)
    requires IsMantissa(B) && 0 <= bLo < 8
    ensures var b := B / 8 % 0x800 * 8 + bLo; IsMantissa(b) && b % 8 == bLo && b - bLo == B - B % 8
  {
    HighPart(B, 0x800);
    DivModUnique(B / 8 * 8 + bLo, 8, B / 8, bLo);
  }

  /** What unpacking recovers before it completes T. */
  ghost predicate Recovers(c: Encoded, e: Packed) {
    && PackedOk(e) && e.internalE == c.internalE
    && Cleared(e.T, c.internalE) == c.T % 0x1000 && Cleared(e.B, c.internalE) == c.B
    && (c.internalE ==> e.T % 8 * 8 + e.B % 8 == c.E)
  }

  lemma RecoversWide(c: Encoded)
    requires c.internalE && IsMantissa(c.B) && IsMantissa(c.T) && c.E < 64 && c.B % 8 == 0 && c.T % 8 == 0
    ensures Recovers(c, ToEncCap(Decoded(c.internalE, c.E, c.B, c.T)))
  {
    PackedParts(c.T % 0x1000, c.T, c.E / 8 % 8);
    PackedBase(c.B, c.E % 8);
  }

  lemma RecoversNarrow(c: Encoded)
    requires !c.internalE && IsMantissa(c.B) && IsMantissa(c.T)
    ensures Recovers(c, ToEncCap(Decoded(c.internalE, c.E, c.B, c.T)))
  {
    PackedParts(c.T % 0x1000, c.T, c.T % 8);
    PackedBase(c.B, c.B % 8);
  }

  lemma UnpackFields(c: Encoded, D: int)
    requires Distance(c, D)
    ensures var d := Decoded(c.internalE, c.E, c.B, c.T); ToCapability(ToEncCap(d)) == d
  {
    if c.internalE {
      RecoversWide(c);
    } else {
      RecoversNarrow(c);
    }
    TopBitsFollow(c.B, D, Bit(c.internalE));
  }

  /** Bounds that setCapBounds produced survive a store to memory followed by a load. */
  lemma StoreThenLoad(base: int, top: int)
    requires Request(base, top)
    ensures var c := SetBounds(base, top);
            var d := Decoded(c.internalE, c.E, c.B, c.T);
            ToCapability(ToEncCap(d)) == d
  {
    var D := MantissaDistance(base, top);
    UnpackFields(SetBounds(base, top), D);
  }
}
