/**
  The fast representability check: when moving the address of a capability keeps its bounds.
 */
module CheriRep {
  import opened Bits
  import opened CheriBounds

  /** fastRepCheck, for address a and increment i. */
  function FastRepCheck(E: nat, B: int, a: int, i: int): bool {
    if E >= MAX_E - 2 then true
    else
      var iTop := S64(i) / Pow2(E + 14);
      var iMid := i / Pow2(E) % MANTISSA;
      var aMid := S64(a) / Pow2(E) % MANTISSA;
      InRegion(iTop, iMid, aMid, R3(B) * 0x800)
  }

  /** The comparisons of fastRepCheck. */
  predicate InRegion(iTop: int, iMid: int, aMid: int, R: int) {
    var diff := (R - aMid) % MANTISSA;
    var diff1 := U64(diff - 1);
    if iTop == 0 then iMid < diff1
    else if iTop == -1 then iMid >= diff && R != aMid
    else false
  }

  /** How far the address is into its region, in units of 2^E. */
  function Depth(E: nat, B: int, a: int): int { (a / Pow2(E) - R3(B) * 0x800) % MANTISSA }

  function Carry(E: nat, a: int, i: int): int { (a % Pow2(E) + S64(i) % Pow2(E)) / Pow2(E) }

  /**
    The step starts in the first unit of the region and, with the carry of the low bits, ends just behind its last
    unit.
   */
  predicate Overruns(E: nat, B: int, a: int, i: int) {
    E < MAX_E - 2 && Depth(E, B, a) == 0 && S64(i) / Pow2(E) == MANTISSA - 1 && Carry(E, a, i) == 1
  }

  // ---------------------------------------------------------------- the check in units of 2^E

  lemma UnitsShift(x: int, P: int, k: int)
    requires P > 0
    ensures (x - (k * MANTISSA) * P) / P == x / P - k * MANTISSA
    ensures (x - (k * MANTISSA) * P) / P % MANTISSA == x / P % MANTISSA
  {
    QuotientShift(x, P, k * MANTISSA);
    RemainderShift(x / P, k);
  }

  lemma QuotientShift(x: int, P: int, n: int)
    requires P > 0
    ensures (x - n * P) / P == x / P - n
  {
    assert x - n * P == x + (-n) * P;
    ModAddMultiple(x, -n, P);
  }

  lemma RemainderShift(u: int, k: int)
    ensures (u - k * MANTISSA) % MANTISSA == u % MANTISSA
  {
    assert u - k * MANTISSA == u + (-k) * MANTISSA;
    ModAddMultiple(u, -k, MANTISSA);
  }

  /** 2^64 is a whole number of regions. */
  lemma RegionsIn64(E: nat)
    requires E < MAX_E - 2
    ensures TWO64 == (Pow2(50 - E) * MANTISSA) * Pow2(E)
  {
    assert Pow2(64 - E) == Pow2(50 - E) * MANTISSA by { Pow2Values(); Pow2Add(50 - E, 14); }
    Split64(E);
  }

  lemma SignInUnits(x: int, E: nat)
    requires IsU64(x) && E < MAX_E - 2
    ensures S64(x) / Pow2(E) % MANTISSA == x / Pow2(E) % MANTISSA
    ensures S64(x) / Pow2(E + 14) == S64(x) / Pow2(E) / MANTISSA
  {
    assert Pow2(E + 14) == Pow2(E) * MANTISSA by { Pow2Values(); Pow2Add(E, 14); }
    DivDiv(S64(x), Pow2(E), MANTISSA);
    if S64(x) != x {
      RegionsIn64(E);
      UnitsShift(x, Pow2(E), Pow2(50 - E));
    }
  }

  /** The step d, from `depth` units above the start of a region, passes the check. */
  predicate PassesFrom(d: int, depth: int) {
    || (0 <= d < MANTISSA && (depth == 0 || depth + d <= MANTISSA - 2))
    || (-MANTISSA <= d < 0 && depth != 0 && 0 <= depth + d)
  }

  lemma CheckArithmetic(d: int, u: int, R: int)
    requires 0 <= R < MANTISSA
    ensures InRegion(d / MANTISSA, d % MANTISSA, u % MANTISSA, R) <==> PassesFrom(d, (u - R) % MANTISSA)
  {
    var aMid := u % MANTISSA;
    assert (u - R) % MANTISSA == if aMid >= R then aMid - R else aMid - R + MANTISSA;
    assert (R - aMid) % MANTISSA == if R >= aMid then R - aMid else R - aMid + MANTISSA;
  }

  /** The check compares the step with the room above and below the address in its region. */
  lemma FastRepInUnits(E: nat, B: int, a: int, i: int)
    requires IsU64(a) && IsU64(i) && E < MAX_E - 2
    ensures FastRepCheck(E, B, a, i) <==> PassesFrom(S64(i) / Pow2(E), Depth(E, B, a))
  {
    SignInUnits(a, E);
    SignInUnits(i, E);
    CheckArithmetic(S64(i) / Pow2(E), a / Pow2(E), R3(B) * 0x800);
  }

  lemma StepArithmetic(a: int, v: int, w: int, P: int, Q: int)
    requires P > 0 && P * Q == TWO64
    ensures 0 <= (a % P + v % P) / P <= 1
    ensures (a + v - w * TWO64) / P == a / P + v / P + (a % P + v % P) / P - w * Q
  {
    DivMod(a, P);
    DivMod(v, P);
    var low := a % P + v % P;
    var c := if low < P then 0 else 1;
    DivModUnique(low, P, c, low - c * P);
    var n := a / P + v / P + c - w * Q;
    assert a + v - w * TWO64 == n * P + (low - c * P) by {
      Distribute(P, a / P + v / P, c - w * Q);
      Distribute(P, a / P, v / P);
      Distribute(P, c, -(w * Q));
      assert P * (w * Q) == w * (P * Q);
    }
    DivModUnique(a + v - w * TWO64, P, n, low - c * P);
  }

  /** Where the address ends up, in units, after 64-bit wrap-around. */
  lemma StepInUnits(E: nat, a: int, i: int)
    requires IsU64(a) && IsU64(i) && E <= MAX_E
    ensures 0 <= Carry(E, a, i) <= 1
    ensures var w := (a + S64(i)) / TWO64;
            U64(a + i) / Pow2(E) == a / Pow2(E) + S64(i) / Pow2(E) + Carry(E, a, i) - w * Pow2(64 - E)
  {
    var w := (a + S64(i)) / TWO64;
    assert U64(a + i) == a + S64(i) - w * TWO64;
    Split64(E);
    StepArithmetic(a, S64(i), w, Pow2(E), Pow2(64 - E));
  }

  // ---------------------------------------------------------------- bounds after a step

  lemma RegionStartsDiffer(B: int, u: int, u': int) returns (j: int)
    ensures RegionStart(B, u') == RegionStart(B, u) + j * MANTISSA
    ensures j == (u' - R3(B) * 0x800) / MANTISSA - (u - R3(B) * 0x800) / MANTISSA
  {
    j := (u' - R3(B) * 0x800) / MANTISSA - (u - R3(B) * 0x800) / MANTISSA;
  }

  /** From exponent 50 on the whole address space is one region. */
  lemma OneRegion(E: nat, j: int)
    requires MAX_E - 2 <= E
    ensures Pow2(E) * (j * MANTISSA) % TWO64 == 0
  {
    var K := Pow2(E - 50);
    assert Pow2(E) * MANTISSA == K * TWO64 by { Pow2Values(); Pow2Add(E - 50, 64); Pow2Add(E, 14); }
    assert Pow2(E) * (j * MANTISSA) == (j * K) * TWO64;
    ModAddMultiple(0, j * K, TWO64);
  }

  /** Number of regions crossed by a step that ends `p` units above the start of the old region. */
  lemma RegionsCrossed(x: int, d: int, w: int, K: int)
    ensures (x + d - w * (K * MANTISSA)) / MANTISSA == x / MANTISSA + (x % MANTISSA + d) / MANTISSA - w * K
  {
    assert w * (K * MANTISSA) == (w * K) * MANTISSA;
    ModAddMultiple(x + d, -(w * K), MANTISSA);
  }

  lemma SameRegionIff(P: int, K: int, j: int)
    requires P > 0 && K > 0 && TWO64 == (K * MANTISSA) * P
    ensures P * (j * MANTISSA) % TWO64 == 0 <==> j % K == 0
  {
    var H := P * MANTISSA;
    assert P * (j * MANTISSA) == H * j && TWO64 == H * K;
    ModScale(j, H, K);
    if j % K != 0 {
      MulMonotone(H, 1, j % K);
    }
  }

  lemma SmallMultiple(q: int, w: int, K: int)
    requires K >= 2 && -1 <= q <= 1
    ensures (q - w * K) % K == 0 <==> q == 0
  {
    assert (q - w * K) % K == q % K by { ModAddMultiple(q, -w, K); assert -w * K == -(w * K); }
    assert q % K == if q == -1 then K - 1 else q by { DivModUnique(q, K, if q == -1 then -1 else 0, if q == -1 then K - 1 else q); }
  }

  /** The region after a step, as a number of regions away from the one before. */
  lemma RegionAfterStep(E: nat, B: int, a: int, i: int) returns (j: int)
    requires IsU64(a) && IsU64(i) && E < MAX_E - 2
    ensures RegionStart(B, U64(a + i) / Pow2(E)) == RegionStart(B, a / Pow2(E)) + j * MANTISSA
    ensures var q := (Depth(E, B, a) + S64(i) / Pow2(E) + Carry(E, a, i)) / MANTISSA;
            j == q - (a + S64(i)) / TWO64 * Pow2(50 - E)
  {
    var u, u', R, K := a / Pow2(E), U64(a + i) / Pow2(E), R3(B) * 0x800, Pow2(50 - E);
    var d, w := S64(i) / Pow2(E) + Carry(E, a, i), (a + S64(i)) / TWO64;
    StepInUnits(E, a, i);
    assert Pow2(64 - E) == K * MANTISSA by { Pow2Values(); Pow2Add(50 - E, 14); }
    RegionsCrossed(u - R, d, w, K);
    j := RegionStartsDiffer(B, u, u');
  }

  /** Crossing q regions with w wrap-arounds is a multiple of the address space only if q is 0. */
  lemma CrossedNone(E: nat, q: int, w: int)
    requires E < MAX_E - 2 && -1 <= q <= 1
    ensures Pow2(E) * ((q - w * Pow2(50 - E)) * MANTISSA) % TWO64 == 0 <==> q == 0
  {
    var K := Pow2(50 - E);
    assert K >= 2 by { Pow2Monotone(1, 50 - E); }
    RegionsIn64(E);
    SameRegionIff(Pow2(E), K, q - w * K);
    SmallMultiple(q, w, K);
  }

  /** Bounds at two addresses, compared by the regions of the addresses. */
  lemma SameBoundsAt(E: nat, B: int, T: int, a: int, a': int, j: int)
    requires IsMantissa(B) && IsMantissa(T) && IsU64(a) && IsU64(a') && E <= MAX_E
    requires RegionStart(B, a' / Pow2(E)) == RegionStart(B, a / Pow2(E)) + j * MANTISSA
    ensures GetBounds(E, B, T, a') == GetBounds(E, B, T, a) <==> Pow2(E) * (j * MANTISSA) % TWO64 == 0
  {
    GetBoundsIsRegion(E, B, T, a);
    GetBoundsIsRegion(E, B, T, a');
    SameBoundsIff(E, RegionStart(B, a / Pow2(E)), j, B, T);
  }

  /** A step of less than a region crosses no region boundary if and only if it ends in the same region. */
  lemma ShortCrossing(E: nat, B: int, a: int, i: int) returns (j: int)
    requires IsU64(a) && IsU64(i) && E < MAX_E - 2 && -MANTISSA <= S64(i) / Pow2(E) < MANTISSA
    ensures RegionStart(B, U64(a + i) / Pow2(E)) == RegionStart(B, a / Pow2(E)) + j * MANTISSA
    ensures Pow2(E) * (j * MANTISSA) % TWO64 == 0
            <==> 0 <= Depth(E, B, a) + S64(i) / Pow2(E) + Carry(E, a, i) < MANTISSA
  {
    var q, w := (Depth(E, B, a) + S64(i) / Pow2(E) + Carry(E, a, i)) / MANTISSA, (a + S64(i)) / TWO64;
    assert -1 <= q <= 1 by { assert 0 <= Carry(E, a, i) <= 1 by { StepInUnits(E, a, i); } }
    j := RegionAfterStep(E, B, a, i);
    CrossedNone(E, q, w);
  }

  /** A step of less than a region keeps the bounds if and only if it ends in the same region. */
  lemma ShortStep(E: nat, B: int, T: int, a: int, i: int)
    requires IsMantissa(B) && IsMantissa(T) && IsU64(a) && IsU64(i) && E < MAX_E - 2
    requires -MANTISSA <= S64(i) / Pow2(E) < MANTISSA
    ensures GetBounds(E, B, T, U64(a + i)) == GetBounds(E, B, T, a)
            <==> 0 <= Depth(E, B, a) + S64(i) / Pow2(E) + Carry(E, a, i) < MANTISSA
  {
    var j := ShortCrossing(E, B, a, i);
    SameBoundsAt(E, B, T, a, U64(a + i), j);
  }

  /**
    A positive answer of the check is right, for any capability and any step with 64-bit wrap-around, except for the
    steps that overrun a region from its very first unit.
   */
  lemma FastRepCheckExact(E: nat, B: int, T: int, a: int, i: int)
    requires IsMantissa(B) && IsMantissa(T) && IsU64(a) && IsU64(i)
    requires FastRepCheck(E, B, a, i)
    ensures GetBounds(E, B, T, U64(a + i)) == GetBounds(E, B, T, a) <==> !Overruns(E, B, a, i)
  {
    if E < MAX_E - 2 {
      FastRepInUnits(E, B, a, i);
      StepInUnits(E, a, i);
      ShortStep(E, B, T, a, i);
    } else {
      var e := Effective(E);
      var j := RegionStartsDiffer(B, a / Pow2(e), U64(a + i) / Pow2(e));
      OneRegion(e, j);
      SameBoundsAt(e, B, T, a, U64(a + i), j);
    }
  }

  /** The exception does occur: a step that passes the check and moves the bounds. */
  lemma FastRepCheckTooWeak(T: int)
    requires IsMantissa(T)
    ensures FastRepCheck(1, 0, 0x7001, 0x7FFF)
    ensures GetBounds(1, 0, T, U64(0x7001 + 0x7FFF)) != GetBounds(1, 0, T, 0x7001)
  {
    assert Pow2(1) == 2;
    FastRepInUnits(1, 0, 0x7001, 0x7FFF);
    FastRepCheckExact(1, 0, T, 0x7001, 0x7FFF);
  }
}
