/**
  Shifting right with rounding and clipping to a narrower element.
 */
module VClip {
  import opened Bits
  import opened VRounding
  import opened VAverage

  /** The nearest value that fits an element of n bits. */
  function Clip(v: int, n: nat, signed: bool): int
    requires n > 0
  {
    var low, high := if signed then -Pow2(n - 1) else 0, if signed then Pow2(n - 1) - 1 else Pow2(n) - 1;
    if v < low then low else if v > high then high else v
  }

  datatype Clipped = Clipped(value: int, sat: bool)

  /** c is x clipped to an element of n bits, and says whether that changed it. */
  ghost predicate ClippedTo(c: Clipped, x: int, n: nat, signed: bool)
    requires n > 0
  {
    (c.sat <==> Clip(x, n, signed) != x) && c.value % Pow2(n) == Clip(x, n, signed) % Pow2(n)
  }

  /** clampSigned. */
  function ClampSigned(elem: int, from: nat, to: nat): Clipped
    requires from > 0 && to > 0
  {
    var e := SignExtend(elem, from);
    var upper, lower := Pow2(to - 1) - 1, -Pow2(to - 1);
    var clamped := if e < lower then lower else if e > upper then upper else e;
    Clipped(clamped % TWO64, clamped != e)
  }

  /** The number of shift bits used: the logarithm of the width of the shifted operand. */
  function ShiftBits(n: nat, w: nat): nat
    requires n > 0
  {
    var vsew := if n == 8 then 0 else if n == 16 then 1 else if n == 32 then 2 else 3;
    vsew + 2 + w / n
  }

  function ClampUnsigned(r: int, n: nat): Clipped {
    if r > Pow2(n) - 1 then Clipped(Pow2(n) - 1, true) else Clipped(r, false)
  }

  /** vShiftRight with clipping, of an operand of w bits to an element of n bits, which is w or half of it. */
  function ShiftRightClip(op2: int, op1: int, w: nat, n: nat, signed: bool, rm: Vxrm): Clipped
    requires Width(w) && Width(n)
  {
    var d := op1 % Pow2(ShiftBits(n, w));
    if signed then ClampSigned(Round(SignExtend(op2, w), d, rm) % TWO64, w, n) else ClampUnsigned(Round(op2, d, rm), n)
  }

  /** The shift amount is taken modulo the width of the operand. */
  lemma ShiftAmount(op1: int, w: nat, n: nat)
    requires Width(w) && Width(n) && (w == n || w == 2 * n)
    ensures Pow2(ShiftBits(n, w)) == w
  {
    assert Pow2(3) == 8 && Pow2(4) == 16 && Pow2(5) == 32 && Pow2(6) == 64;
  }

  /** Rounding the half or a smaller part of a signed word stays within the word. */
  lemma RoundStays(v: int, d: nat, G: int, rm: Vxrm)
    requires G >= 2 && -G <= v < G
    ensures -G <= Round(v, d, rm) < G
  {
    var P := Pow2(d);
    RoundMeans(v, d, rm);
    DivMod(v, P);
    if d > 0 {
      assert P >= 2;
      Quarter(v, P, v / P, G);
    }
  }

  lemma Quarter(v: int, P: int, q: int, G: int)
    requires P >= 2 && G >= 2 && -G <= v < G && 0 <= v - q * P < P
    ensures -G <= q < G - 1
  {
    if q >= G - 1 {
      ProductAbove(P, q, G - 1);
    }
    if q < -G {
      ProductAbove(P, -q - 1, G);
    }
  }

  lemma ProductAbove(P: int, q: int, k: int)
    requires P >= 2 && q >= k >= 0
    ensures P * q >= 2 * k
  {
    MulMonotone(P, k, q);
    MulMonotone(k, 2, P);
  }

  /** Sign-extending what fits gives it back. */
  lemma SignExtendFits(x: int, w: nat)
    requires Width(w) && -Pow2(w - 1) <= x < Pow2(w - 1)
    ensures SignExtend(x % TWO64, w) == x
  {
    var H, K := WidthFacts(w);
    ModMod(x, 2 * H, K);
    DivModUnique(x, 2 * H, if x < 0 then -1 else 0, if x < 0 then x + 2 * H else x);
  }

  lemma ClampValue(x: int, w: nat, n: nat)
    requires Width(w) && Width(n) && -Pow2(w - 1) <= x < Pow2(w - 1)
    ensures ClampSigned(x % TWO64, w, n) == Clipped(Clip(x, n, true) % TWO64, Clip(x, n, true) != x)
  {
    SignExtendFits(x, w);
  }

  lemma LowBits(v: int, n: nat)
    requires Width(n)
    ensures v % TWO64 % Pow2(n) == v % Pow2(n)
  {
    var H, K := WidthFacts(n);
    ModMod(v, 2 * H, K);
  }

  lemma ClampIs(x: int, w: nat, n: nat)
    requires Width(w) && Width(n) && -Pow2(w - 1) <= x < Pow2(w - 1)
    ensures ClippedTo(ClampSigned(x % TWO64, w, n), x, n, true)
  {
    ClampValue(x, w, n);
    LowBits(Clip(x, n, true), n);
  }

  lemma SignExtendRange(x: int, n: nat)
    requires Width(n)
    ensures -Pow2(n - 1) <= SignExtend(x, n) < Pow2(n - 1)
  {
    var H, K := WidthFacts(n);
  }

  lemma SignedClip(op2: int, d: nat, w: nat, n: nat, rm: Vxrm)
    requires Width(w) && Width(n)
    ensures var x := Round(SignExtend(op2, w), d, rm);
            ClippedTo(ClampSigned(x % TWO64, w, n), x, n, true)
  {
    SignExtendRange(op2, w);
    var H, K := WidthFacts(w);
    RoundStays(SignExtend(op2, w), d, H, rm);
    ClampIs(Round(SignExtend(op2, w), d, rm), w, n);
  }

  lemma ShiftRightClipBy(op2: int, op1: int, d: nat, w: nat, n: nat, signed: bool, rm: Vxrm)
    requires Width(w) && Width(n) && d == op1 % Pow2(ShiftBits(n, w))
    ensures ShiftRightClip(op2, op1, w, n, signed, rm)
            == if signed then ClampSigned(Round(SignExtend(op2, w), d, rm) % TWO64, w, n) else ClampUnsigned(Round(op2, d, rm), n)
  {
  }

  /**
    vShiftRight with clipping is the exact value of the operand, shifted right with rounding and then clipped, and it
    saturates if and only if clipping changes the value.
   */
  lemma {:induction false} ShiftRightClipExact(op2: int, op1: int, w: nat, n: nat, signed: bool, rm: Vxrm)
    requires Width(w) && Width(n) && (w == n || w == 2 * n) && 0 <= op2 < Pow2(w)
    ensures ClippedTo(ShiftRightClip(op2, op1, w, n, signed, rm), Round(Element(op2, w, signed), op1 % w, rm), n, signed)
  {
    ShiftAmount(op1, w, n);
    var d := op1 % w;
    ShiftRightClipBy(op2, op1, d, w, n, signed, rm);
    if signed {
      SignedClip(op2, d, w, n, rm);
    } else {
      UnsignedRounds(op2, d, Pow2(w), rm);
      UnsignedClip(Round(op2, d, rm), n);
    }
  }

  lemma UnsignedClip(x: int, n: nat)
    requires n > 0 && x >= 0
    ensures ClippedTo(ClampUnsigned(x, n), x, n, false)
  {
  }

  lemma UnsignedRounds(v: int, d: nat, W: int, rm: Vxrm)
    requires 0 <= v < W
    ensures v % W == v && Round(v, d, rm) >= 0
  {
    DivModUnique(v, W, 0, v);
    DivMod(v, Pow2(d));
    if v / Pow2(d) < 0 {
      MulMonotone(Pow2(d), v / Pow2(d), -1);
    }
  }
}
