/**
  Saturating addition and subtraction of vector elements.
 */
module VSaturate {
  import opened Bits
  import opened VAverage
  import opened VClip

  /** The most negative and the largest element as 64-bit words. */
  function MinWord(n: nat): int
    requires n > 0
  {
    -Pow2(n - 1) % TWO64
  }

  /** add_saturate from the element-wide sum and the top bits. */
  function SaturateSum(sum: int, o2: bool, o1: bool, r: bool, n: nat): Clipped
    requires n > 0
  {
    if o1 && o2 && !r then Clipped(MinWord(n), true)
    else if !o1 && !o2 && r then Clipped(Pow2(n - 1) - 1, true)
    else Clipped(sum, false)
  }

  /** vSadd. */
  function Sadd(op2: int, op1: int, n: nat): Clipped
    requires Width(n)
  {
    var sum := (op2 + op1) % TWO64 % Pow2(n);
    SaturateSum(sum, Msb(op2, n), Msb(op1, n), Msb(sum, n), n)
  }

  /** vSsub from the element-wide difference and the top bits. */
  function SaturateDiff(res: int, o2: bool, o1: bool, r: bool, n: nat): Clipped
    requires n > 0
  {
    if o2 && !o1 && !r then Clipped(MinWord(n), true)
    else if !o2 && o1 && r then Clipped(Pow2(n - 1) - 1, true)
    else Clipped(res, false)
  }

  /** vSsub. */
  function Ssub(op2: int, op1: int, n: nat): Clipped
    requires Width(n)
  {
    var res := (op2 - op1) % TWO64 % Pow2(n);
    SaturateDiff(res, Msb(op2, n), Msb(op1, n), Msb(res, n), n)
  }

  /** vSaddu: all bits are set after a carry. */
  function Saddu(op2: int, op1: int, n: nat): Clipped
    requires Width(n)
  {
    var res := (op2 + op1) % TWO64 % Pow2(n);
    if res < op1 % Pow2(n) then Clipped(TWO64 - 1, true) else Clipped(res, false)
  }

  /** vSsubu: all bits are cleared after a borrow; op2 is an element. */
  function Ssubu(op2: int, op1: int, n: nat): Clipped
    requires Width(n)
  {
    var res := (op2 - op1) % TWO64;
    if res % Pow2(n) <= op2 then Clipped(res, false) else Clipped(0, true)
  }

  // ---------------------------------------------------------------- clipped values

  /** Values below, above and within the range of signed elements. */
  lemma ClippedLow(e: int, n: nat)
    requires Width(n) && e < -Pow2(n - 1)
    ensures ClippedTo(Clipped(MinWord(n), true), e, n, true)
  {
    LowBits(-Pow2(n - 1), n);
  }

  lemma ClippedHigh(e: int, n: nat)
    requires Width(n) && e >= Pow2(n - 1)
    ensures ClippedTo(Clipped(Pow2(n - 1) - 1, true), e, n, true)
  {
  }

  lemma NotClipped(w: int, e: int, n: nat)
    requires Width(n) && -Pow2(n - 1) <= e < Pow2(n - 1) && w % Pow2(n) == e % Pow2(n)
    ensures ClippedTo(Clipped(w, false), e, n, true)
  {
  }

  /** The same for unsigned elements. */
  lemma ClippedBelow(e: int, n: nat)
    requires Width(n) && e < 0
    ensures ClippedTo(Clipped(0, true), e, n, false)
  {
  }

  lemma {:induction false} ClippedAbove(e: int, n: nat)
    requires Width(n) && e >= Pow2(n)
    ensures ClippedTo(Clipped(TWO64 - 1, true), e, n, false)
  {
    var H, K := WidthFacts(n);
    AllOnes(Pow2(n), K);
  }

  lemma AllOnes(M: int, K: int)
    requires M > 0 && TWO64 == K * M
    ensures (TWO64 - 1) % M == M - 1 && (M - 1) % M == M - 1
  {
    Distribute(M, K, -1);
    DivModUnique(TWO64 - 1, M, K - 1, M - 1);
    DivModUnique(M - 1, M, 0, M - 1);
  }

  lemma Unclipped(w: int, e: int, n: nat)
    requires Width(n) && 0 <= e < Pow2(n) && w % Pow2(n) == e
    ensures ClippedTo(Clipped(w, false), e, n, false)
  {
    DivModUnique(e, Pow2(n), 0, e);
  }

  /** Words that differ by a multiple of the range are the same element. */
  lemma SameElement(w: int, e: int, k: int, n: nat)
    requires Width(n) && w == e + k * Pow2(n)
    ensures w % Pow2(n) == e % Pow2(n)
  {
    ModAddMultiple(e, k, Pow2(n));
  }

  // ---------------------------------------------------------------- signed elements

  /** Clipping of the exact value e, whose element is w if it fits. */
  function Saturation(w: int, e: int, n: nat): Clipped
    requires n > 0
  {
    if e < -Pow2(n - 1) then Clipped(MinWord(n), true)
    else if e >= Pow2(n - 1) then Clipped(Pow2(n - 1) - 1, true)
    else Clipped(w, false)
  }

  /** c is what saturation makes of the exact value e, whose element is w. */
  ghost predicate Saturates(c: Clipped, w: int, e: int, n: nat)
    requires n > 0
  {
    (w == e || w == e + Pow2(n) || e < -Pow2(n - 1) || e >= Pow2(n - 1)) && c == Saturation(w, e, n)
  }

  lemma SaturationExact(c: Clipped, w: int, e: int, n: nat)
    requires Width(n) && Saturates(c, w, e, n)
    ensures ClippedTo(c, e, n, true)
  {
    if e < -Pow2(n - 1) {
      ClippedLow(e, n);
    } else if e >= Pow2(n - 1) {
      ClippedHigh(e, n);
    } else {
      SameElement(w, e, if w == e then 0 else 1, n);
      NotClipped(w, e, n);
    }
  }

  /** Elements x and y below 2 * H. */
  ghost predicate Elements(x: int, y: int, H: int, n: nat)
    requires n > 0
  {
    Pow2(n) == 2 * H && H == Pow2(n - 1) && 0 <= x < 2 * H && 0 <= y < 2 * H
  }

  /** c is the saturated, and e the exact sum of two elements. */
  ghost predicate SumParts(c: Clipped, e: int, x: int, y: int, H: int, n: nat)
    requires n > 0
  {
    && Elements(x, y, H, n) && e == Signed(x, H) + Signed(y, H)
    && c == SaturateSum(SumOf(x, y, H), x >= H, y >= H, SumOf(x, y, H) >= H, n)
  }

  ghost predicate DiffParts(c: Clipped, e: int, x: int, y: int, H: int, n: nat)
    requires n > 0
  {
    && Elements(x, y, H, n) && e == Signed(x, H) - Signed(y, H)
    && c == SaturateDiff(DiffOf(x, y, H), x >= H, y >= H, DiffOf(x, y, H) >= H, n)
  }

  /** Saturation is decided by the exact value. */
  lemma SumDecided(c: Clipped, e: int, x: int, y: int, H: int, n: nat)
    requires n > 0 && SumParts(c, e, x, y, H, n)
    ensures Saturates(c, SumOf(x, y, H), e, n)
  {
  }

  lemma DiffDecided(c: Clipped, e: int, x: int, y: int, H: int, n: nat)
    requires n > 0 && DiffParts(c, e, x, y, H, n)
    ensures Saturates(c, DiffOf(x, y, H), e, n)
  {
  }

  lemma SumClipped(c: Clipped, e: int, x: int, y: int, H: int, n: nat)
    requires Width(n) && SumParts(c, e, x, y, H, n)
    ensures ClippedTo(c, e, n, true)
  {
    SumDecided(c, e, x, y, H, n);
    SaturationExact(c, SumOf(x, y, H), e, n);
  }

  lemma DiffClipped(c: Clipped, e: int, x: int, y: int, H: int, n: nat)
    requires Width(n) && DiffParts(c, e, x, y, H, n)
    ensures ClippedTo(c, e, n, true)
  {
    DiffDecided(c, e, x, y, H, n);
    SaturationExact(c, DiffOf(x, y, H), e, n);
  }

  /** The exact value e of the elements, and its clipping. */
  lemma SaddClips(op2: int, op1: int, n: nat) returns (c: Clipped, e: int)
    requires Width(n)
    ensures c == Sadd(op2, op1, n) && e == SignExtend(op2, n) + SignExtend(op1, n) && ClippedTo(c, e, n, true)
  {
    var x, y, H := ByElements(op2, op1, n);
    SignExtendIs(op2, n, H);
    SignExtendIs(op1, n, H);
    WordIs(SumOf(x, y, H), n, H);
    c := SaturateSum(SumOf(x, y, H), x >= H, y >= H, SumOf(x, y, H) >= H, n);
    e := Signed(x, H) + Signed(y, H);
    SumClipped(c, e, x, y, H, n);
  }

  lemma SsubClips(op2: int, op1: int, n: nat) returns (c: Clipped, e: int)
    requires Width(n)
    ensures c == Ssub(op2, op1, n) && e == SignExtend(op2, n) - SignExtend(op1, n) && ClippedTo(c, e, n, true)
  {
    var x, y, H := ByElements(op2, op1, n);
    SignExtendIs(op2, n, H);
    SignExtendIs(op1, n, H);
    WordIs(DiffOf(x, y, H), n, H);
    c := SaturateDiff(DiffOf(x, y, H), x >= H, y >= H, DiffOf(x, y, H) >= H, n);
    e := Signed(x, H) - Signed(y, H);
    DiffClipped(c, e, x, y, H, n);
  }

  /** vSadd is the exact sum of signed elements, clipped; it saturates if and only if clipping changes the sum. */
  lemma SaddExact(op2: int, op1: int, n: nat)
    requires Width(n)
    ensures ClippedTo(Sadd(op2, op1, n), SignExtend(op2, n) + SignExtend(op1, n), n, true)
  {
    var c, e := SaddClips(op2, op1, n);
  }

  /** vSsub is the exact difference of signed elements, clipped. */
  lemma SsubExact(op2: int, op1: int, n: nat)
    requires Width(n)
    ensures ClippedTo(Ssub(op2, op1, n), SignExtend(op2, n) - SignExtend(op1, n), n, true)
  {
    var c, e := SsubClips(op2, op1, n);
  }

  // ---------------------------------------------------------------- unsigned elements

  lemma WordOf(x: int, n: nat)
    requires Width(n) && 0 <= x < Pow2(n)
    ensures x % Pow2(n) == x
  {
    DivModUnique(x, Pow2(n), 0, x);
  }

  lemma SadduBy(op2: int, op1: int, n: nat) returns (x: int, y: int)
    requires Width(n)
    ensures x == op2 % Pow2(n) && y == op1 % Pow2(n) && 0 <= x && 0 <= y
    ensures Saddu(op2, op1, n) == if x + y >= Pow2(n) then Clipped(TWO64 - 1, true) else Clipped(x + y, false)
  {
    var H;
    x, y, H := ByElements(op2, op1, n);
  }

  lemma SsubuBy(op2: int, op1: int, n: nat) returns (x: int, y: int, w: int)
    requires Width(n) && 0 <= op2 < Pow2(n)
    ensures x == op2 && y == op1 % Pow2(n) && 0 <= y
    ensures x >= y ==> w % Pow2(n) == x - y
    ensures Ssubu(op2, op1, n) == if x < y then Clipped(0, true) else Clipped(w, false)
  {
    var H;
    WordOf(op2, n);
    x, y, H := ByElements(op2, op1, n);
    w := (op2 - op1) % TWO64;
  }

  /** vSaddu is the exact sum of unsigned elements, clipped. */
  lemma {:induction false} SadduExact(op2: int, op1: int, n: nat)
    requires Width(n)
    ensures ClippedTo(Saddu(op2, op1, n), op2 % Pow2(n) + op1 % Pow2(n), n, false)
  {
    var x, y := SadduBy(op2, op1, n);
    SadduClipped(Saddu(op2, op1, n), x + y, n);
  }

  lemma SadduClipped(c: Clipped, e: int, n: nat)
    requires Width(n) && 0 <= e && c == if e >= Pow2(n) then Clipped(TWO64 - 1, true) else Clipped(e, false)
    ensures ClippedTo(c, e, n, false)
  {
    if e >= Pow2(n) {
      ClippedAbove(e, n);
    } else {
      WordOf(e, n);
      Unclipped(e, e, n);
    }
  }

  /** vSsubu is the exact difference of unsigned elements, clipped; op2 is an element read from a register. */
  lemma SsubuExact(op2: int, op1: int, n: nat)
    requires Width(n) && 0 <= op2 < Pow2(n)
    ensures ClippedTo(Ssubu(op2, op1, n), op2 - op1 % Pow2(n), n, false)
  {
    var x, y, w := SsubuBy(op2, op1, n);
    if x < y {
      ClippedBelow(x - y, n);
    } else {
      Unclipped(w, x - y, n);
    }
  }
}
