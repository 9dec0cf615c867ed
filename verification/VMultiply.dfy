/**
  The 64 by 64 bit product from four products of halves, and the fixed-point multiplication built on it.
 */
module VMultiply {
  import opened Bits
  import opened VRounding
  import opened VAverage
  import opened VClip

  const TWO32 := 0x1_0000_0000

  predicate IsSigned64(x: int) { -0x8000_0000_0000_0000 <= x < 0x8000_0000_0000_0000 }

  /** An operand is in the range of its type. */
  predicate Operand(x: int, signed: bool) { if signed then IsSigned64(x) else 0 <= x < TWO64 }

  /** Upper bits of a partial product: an arithmetic shift if one of its factors is signed. */
  function Upper32(t: int, signed: bool): int { (if signed then S64(t) else t) / TWO32 }

  datatype Product = Product(upper: int, lower: int)

  /** The two words from the products of halves, with their carries. */
  function Assemble(t0: int, t1: int, t2: int, t3: int, signed1: bool, signed2: bool): Product {
    var carry := (t0 / TWO32 + t1 % TWO32 + t2 % TWO32) % TWO64;
    var carryOther := Upper32(t1, signed1) + Upper32(t2, signed2) + Upper32(carry, signed2);
    Product((t3 + carryOther) % TWO64, carry * TWO32 % TWO64 + t0 % TWO32)
  }

  /** The two words of the product, before shifting. */
  function Words(op2: int, op1: int, signed2: bool, signed1: bool): Product {
    var aHigh, aLow := op2 / TWO32 % TWO64, op2 % TWO32;
    var bHigh, bLow := op1 / TWO32 % TWO64, op1 % TWO32;
    Assemble(aLow * bLow % TWO64, aLow * bHigh % TWO64, aHigh * bLow % TWO64, aHigh * bHigh % TWO64,
             signed2 && signed1, signed2)
  }

  /** The words shifted right, with the rounding increment of the lower word added to the lower one. */
  function Shifted(p: Product, shift: nat, round: bool, rm: Vxrm): int
    requires shift <= 64
  {
    var shiftOut := p.upper % Pow2(shift) * Pow2(64 - shift) % TWO64;
    var lowerPart := if shift == 64 then 0 else p.lower / Pow2(shift);
    var lower := lowerPart + shiftOut;
    if round then (lower + RoundingIncrement(p.lower, shift, rm)) % TWO64 else lower
  }

  /** multiply: its lower result. */
  function Multiply(op2: int, op1: int, signed2: bool, signed1: bool, shift: nat, round: bool, rm: Vxrm): int
    requires shift <= 64
  {
    Shifted(Words(op2, op1, signed2, signed1), shift, round, rm)
  }

  // ---------------------------------------------------------------- the words are the product

  /** A product of halves, reduced to 64 bits, is itself once it is read with the right sign. */
  lemma PartFits(x: int, h: int, signed: bool)
    requires 0 <= x < TWO32 && (if signed then -0x8000_0000 <= h < 0x8000_0000 else 0 <= h < TWO32)
    ensures var t := x * (h % TWO64) % TWO64; (if signed then S64(t) else t) == x * h
  {
    assert x * (h % TWO64) % TWO64 == x * h % TWO64 by { MulMod(x, h, TWO64); }
    if signed {
      MulMonotone(x, -0x8000_0000, h);
      MulMonotone(x, h, 0x7FFF_FFFF);
      DivModUnique(x * h, TWO64, if x * h < 0 then -1 else 0, if x * h < 0 then x * h + TWO64 else x * h);
    } else {
      MulMonotone(x, 0, h);
      MulMonotone(x, h, 0xFFFF_FFFF);
      DivModUnique(x * h, TWO64, 0, x * h);
    }
  }

  lemma MulMod(x: int, h: int, M: int)
    requires M > 0
    ensures x * (h % M) % M == x * h % M
  {
    DivMod(h, M);
    assert x * h == x * (h % M) + (x * (h / M)) * M by { Distribute(x, h % M, h / M * M); assert x * (h / M * M) == (x * (h / M)) * M; }
    ModAddMultiple(x * (h % M), x * (h / M), M);
  }

  /** Schoolbook multiplication of two-digit numbers. */
  lemma Schoolbook(a: int, b: int) returns (hh: int, x1: int, x2: int, t0: int)
    ensures hh == a / TWO32 * (b / TWO32) && x1 == a % TWO32 * (b / TWO32)
    ensures x2 == a / TWO32 * (b % TWO32) && t0 == a % TWO32 * (b % TWO32)
    ensures a * b == hh * TWO64 + (x1 + x2) * TWO32 + t0
  {
    var ah, al, bh, bl := a / TWO32, a % TWO32, b / TWO32, b % TWO32;
    hh, x1, x2, t0 := ah * bh, al * bh, ah * bl, al * bl;
    DigitsProduct(ah, al, bh, bl);
    assert a == ah * TWO32 + al && b == bh * TWO32 + bl;
  }

  lemma DigitsProduct(ah: int, al: int, bh: int, bl: int)
    ensures (ah * TWO32 + al) * (bh * TWO32 + bl) == ah * bh * TWO64 + (al * bh + ah * bl) * TWO32 + al * bl
  {
    Distribute(ah * TWO32 + al, bh * TWO32, bl);
    Distribute(bh * TWO32, ah * TWO32, al);
    Distribute(bl, ah * TWO32, al);
    assert (bh * TWO32) * (ah * TWO32) == ah * bh * TWO64;
    assert (bh * TWO32) * al == al * bh * TWO32;
    assert bl * (ah * TWO32) == ah * bl * TWO32;
  }

  /** Carrying from the lower digits to the upper word. */
  lemma Carried(hh: int, x1: int, x2: int, t0: int)
    ensures var carry := t0 / TWO32 + x1 % TWO32 + x2 % TWO32;
            var upper, lower := hh + x1 / TWO32 + x2 / TWO32 + carry / TWO32, carry % TWO32 * TWO32 + t0 % TWO32;
            hh * TWO64 + (x1 + x2) * TWO32 + t0 == upper * TWO64 + lower && 0 <= lower < TWO64
  {
  }

  lemma HalfRange(x: int, signed: bool)
    requires Operand(x, signed)
    ensures if signed then -0x8000_0000 <= x / TWO32 < 0x8000_0000 else 0 <= x / TWO32 < TWO32
  {
  }

  lemma LowDigits(x: int, t: int)
    requires t == x % TWO64
    ensures t % TWO32 == x % TWO32
  {
  }

  lemma LowProduct(al: int, bl: int)
    requires 0 <= al < TWO32 && 0 <= bl < TWO32
    ensures al * bl % TWO64 == al * bl && 0 <= al * bl
  {
    MulMonotone(al, 0, bl);
    MulMonotone(al, bl, 0xFFFF_FFFF);
    MulMonotone(0xFFFF_FFFF, al, 0xFFFF_FFFF);
    DivModUnique(al * bl, TWO64, 0, al * bl);
  }

  /** What the partial products contribute, by their exact values. */
  lemma Partials(op2: int, op1: int, signed2: bool, signed1: bool)
    requires Operand(op2, signed2) && Operand(op1, signed1)
    ensures var aHigh, aLow := op2 / TWO32 % TWO64, op2 % TWO32;
            var bHigh, bLow := op1 / TWO32 % TWO64, op1 % TWO32;
            var x1, x2 := op2 % TWO32 * (op1 / TWO32), op2 / TWO32 * (op1 % TWO32);
            && aLow * bHigh % TWO64 % TWO32 == x1 % TWO32 && Upper32(aLow * bHigh % TWO64, signed1) == x1 / TWO32
            && aHigh * bLow % TWO64 % TWO32 == x2 % TWO32 && Upper32(aHigh * bLow % TWO64, signed2) == x2 / TWO32
            && aHigh * bHigh % TWO64 == op2 / TWO32 * (op1 / TWO32) % TWO64
            && aLow * bLow % TWO64 == aLow * bLow
  {
    var ah, al, bh, bl := op2 / TWO32, op2 % TWO32, op1 / TWO32, op1 % TWO32;
    HalfRange(op2, signed2);
    HalfRange(op1, signed1);
    Partial(al, bh, signed1);
    Partial(bl, ah, signed2);
    assert bl * (ah % TWO64) == ah % TWO64 * bl && bl * ah == ah * bl;
    MulMod(ah % TWO64, bh, TWO64);
    MulMod(bh, ah, TWO64);
    assert ah % TWO64 * bh == bh * (ah % TWO64) && bh * ah == ah * bh;
    LowProduct(al, bl);
  }

  lemma Partial(x: int, h: int, signed: bool)
    requires 0 <= x < TWO32 && (if signed then -0x8000_0000 <= h < 0x8000_0000 else 0 <= h < TWO32)
    ensures var t := x * (h % TWO64) % TWO64; t % TWO32 == x * h % TWO32 && Upper32(t, signed) == x * h / TWO32
  {
    PartFits(x, h, signed);
    MulMod(x, h, TWO64);
    LowDigits(x * h, x * (h % TWO64) % TWO64);
  }

  /** Carries stay far below 64 bits, so that their sign does not matter. */
  lemma SmallCarry(t0: int, r1: int, r2: int, signed: bool)
    requires 0 <= t0 < TWO64 && 0 <= r1 < TWO32 && 0 <= r2 < TWO32
    ensures var carry := t0 / TWO32 + r1 + r2;
            carry % TWO64 == carry && Upper32(carry, signed) == carry / TWO32 && carry * TWO32 % TWO64 == carry % TWO32 * TWO32
  {
    var carry := t0 / TWO32 + r1 + r2;
    DivModUnique(carry * TWO32, TWO64, carry / TWO32, carry % TWO32 * TWO32);
  }

  lemma AssembleIs(t0: int, t1: int, t2: int, t3: int, signed1: bool, signed2: bool, hh: int, x1: int, x2: int)
    requires t1 % TWO32 == x1 % TWO32 && Upper32(t1, signed1) == x1 / TWO32
    requires t2 % TWO32 == x2 % TWO32 && Upper32(t2, signed2) == x2 / TWO32
    requires t3 == hh % TWO64 && 0 <= t0 < TWO64
    ensures var P := hh * TWO64 + (x1 + x2) * TWO32 + t0;
            Assemble(t0, t1, t2, t3, signed1, signed2) == Product(P / TWO64 % TWO64, P % TWO64)
  {
    var P := hh * TWO64 + (x1 + x2) * TWO32 + t0;
    var carry := t0 / TWO32 + x1 % TWO32 + x2 % TWO32;
    SmallCarry(t0, x1 % TWO32, x2 % TWO32, signed2);
    Carried(hh, x1, x2, t0);
    var rest := x1 / TWO32 + x2 / TWO32 + carry / TWO32;
    DivModUnique(P, TWO64, hh + rest, carry % TWO32 * TWO32 + t0 % TWO32);
    AddMod(hh % TWO64, hh, rest, TWO64);
  }

  /** The two words are the exact product, for signed, mixed and unsigned operands. */
  lemma WordsExact(op2: int, op1: int, signed2: bool, signed1: bool)
    requires Operand(op2, signed2) && Operand(op1, signed1) && (signed1 ==> signed2)
    ensures Words(op2, op1, signed2, signed1) == Product(op2 * op1 / TWO64 % TWO64, op2 * op1 % TWO64)
  {
    var hh, x1, x2, t0 := Schoolbook(op2, op1);
    Partials(op2, op1, signed2, signed1);
    var aHigh, aLow := op2 / TWO32 % TWO64, op2 % TWO32;
    var bHigh, bLow := op1 / TWO32 % TWO64, op1 % TWO32;
    AssembleIs(aLow * bLow % TWO64, aLow * bHigh % TWO64, aHigh * bLow % TWO64, aHigh * bHigh % TWO64,
               signed1, signed2, hh, x1, x2);
  }

  // ---------------------------------------------------------------- shifted and rounded

  /** Shifting a product by Q: q and L are its upper part and its lower word. */
  lemma QuotientOfWords(q: int, L: int, Q: int, K: int)
    requires Q > 0 && Q * K == TWO64
    ensures (q * TWO64 + L) / Q == q * K + L / Q && (q * TWO64 + L) % Q == L % Q
  {
    assert q * TWO64 == (q * K) * Q;
    ModAddMultiple(L, q * K, Q);
  }

  lemma SplitMultiple(q: int, Q: int, K: int)
    requires Q > 0 && K > 0 && Q * K == TWO64
    ensures q * K == q / Q * TWO64 + q % Q * K && 0 <= q % Q * K <= TWO64 - K
  {
    DivMod(q, Q);
    var r := q % Q;
    Distribute(K, q / Q * Q, r);
    assert K * (q / Q * Q) == q / Q * TWO64;
    MulMonotone(K, 0, r);
    MulMonotone(K, r, Q - 1);
    Distribute(K, Q, -1);
  }

  /** Bits that leave the upper word enter the lower one. */
  lemma ShiftWords(q: int, l: int, Q: int, K: int)
    requires Q > 0 && K > 0 && Q * K == TWO64 && 0 <= l < K
    ensures l + q % TWO64 % Q * K % TWO64 == (q * K + l) % TWO64
  {
    assert q % TWO64 % Q == q % Q by { assert TWO64 == K * Q; ModMod(q, Q, K); }
    SplitMultiple(q, Q, K);
    var s := q % Q * K;
    DivModUnique(s, TWO64, 0, s);
    DivModUnique(q * K + l, TWO64, q / Q, s + l);
  }

  lemma QuotientRange(L: int, Q: int, K: int)
    requires Q > 0 && 0 <= L < Q * K
    ensures 0 <= L / Q < K
  {
    DivMod(L, Q);
    if L / Q >= K { MulMonotone(Q, K, L / Q); }
  }

  /** The rounding increment only looks at bits that the lower word has. */
  lemma IncrementOfLow(q: int, L: int, d: nat, rm: Vxrm)
    requires d <= 63
    ensures RoundingIncrement(q * TWO64 + L, d, rm) == RoundingIncrement(L, d, rm)
  {
    BitOfLow(q, L, d);
    if d > 0 {
      BitOfLow(q, L, d - 1);
    }
  }

  lemma BitOfLow(q: int, L: int, d: nat)
    requires d <= 63
    ensures (q * TWO64 + L) % Pow2(d) == L % Pow2(d) && (q * TWO64 + L) / Pow2(d) % 2 == L / Pow2(d) % 2
  {
    var K := Pow2(63 - d);
    assert Pow2(d) * (2 * K) == TWO64 by { Pow2Values(); Pow2Add(d, 64 - d); assert Pow2(64 - d) == 2 * Pow2(63 - d); }
    QuotientOfWords(q, L, Pow2(d), 2 * K);
    EvenAdded(L / Pow2(d), q, K);
  }

  lemma EvenAdded(x: int, q: int, K: int)
    ensures (q * (2 * K) + x) % 2 == x % 2
  {
    assert q * (2 * K) == (q * K) * 2;
    ModAddMultiple(x, q * K, 2);
  }

  lemma ShiftExact(P: int, shift: nat)
    requires shift <= 64
    ensures var upper, lower := P / TWO64 % TWO64, P % TWO64;
            var lowerPart := if shift == 64 then 0 else lower / Pow2(shift);
            lowerPart + upper % Pow2(shift) * Pow2(64 - shift) % TWO64 == P / Pow2(shift) % TWO64
  {
    var q, L, Q, K := P / TWO64, P % TWO64, Pow2(shift), Pow2(64 - shift);
    DivMod(P, TWO64);
    assert Q * K == TWO64 by { Pow2Values(); Pow2Add(shift, 64 - shift); }
    QuotientOfWords(q, L, Q, K);
    QuotientRange(L, Q, K);
    ShiftWords(q, L / Q, Q, K);
    assert shift == 64 ==> K == 1;
  }

  lemma IncrementOfWord(P: int, d: nat, rm: Vxrm)
    requires d <= 63
    ensures RoundingIncrement(P % TWO64, d, rm) == RoundingIncrement(P, d, rm)
  {
    IncrementOfLow(P / TWO64, P % TWO64, d, rm);
    DivMod(P, TWO64);
  }

  lemma RoundExact(P: int, shift: nat, rm: Vxrm, lower: int)
    requires shift <= 63 && lower == P / Pow2(shift) % TWO64
    ensures (lower + RoundingIncrement(P % TWO64, shift, rm)) % TWO64 == Round(P, shift, rm) % TWO64
  {
    IncrementOfWord(P, shift, rm);
    AddToWord(P / Pow2(shift), RoundingIncrement(P, shift, rm));
  }

  lemma AddToWord(q: int, i: int)
    ensures (q % TWO64 + i) % TWO64 == (q + i) % TWO64
  {
    assert q + i == q % TWO64 + i + q / TWO64 * TWO64;
    ModAddMultiple(q % TWO64 + i, q / TWO64, TWO64);
  }

  lemma {:induction false} ShiftedExact(P: int, shift: nat, round: bool, rm: Vxrm)
    requires shift <= 64 && (round ==> shift <= 63)
    ensures Shifted(Product(P / TWO64 % TWO64, P % TWO64), shift, round, rm)
            == (if round then Round(P, shift, rm) else P / Pow2(shift)) % TWO64
  {
    ShiftExact(P, shift);
    if round {
      RoundExact(P, shift, rm, P / Pow2(shift) % TWO64);
    }
  }

  /** multiply yields bits shift+63 down to shift of the exact product, or that product shifted with rounding. */
  lemma MultiplyExact(op2: int, op1: int, signed2: bool, signed1: bool, shift: nat, round: bool, rm: Vxrm)
    requires Operand(op2, signed2) && Operand(op1, signed1) && (signed1 ==> signed2)
    requires shift <= 64 && (round ==> shift <= 63)
    ensures Multiply(op2, op1, signed2, signed1, shift, round, rm)
            == (if round then Round(op2 * op1, shift, rm) else op2 * op1 / Pow2(shift)) % TWO64
  {
    WordsExact(op2, op1, signed2, signed1);
    ShiftedExact(op2 * op1, shift, round, rm);
  }

  // ---------------------------------------------------------------- fixed-point multiplication

  /** vSmul. */
  function Smul(op2: int, op1: int, n: nat, rm: Vxrm): Clipped
    requires Width(n)
  {
    if op2 % Pow2(n) == Pow2(n - 1) && op1 % Pow2(n) == Pow2(n - 1) then Clipped(Pow2(n - 1) - 1, true)
    else Clipped(Multiply(SignExtend(op2, n), SignExtend(op1, n), true, true, n - 1, true, rm), false)
  }

  lemma AbsBound(x: int, y: int, H: int)
    requires 0 <= x <= H && 0 <= y <= H && !(x == H && y == H)
    ensures x * y <= H * (H - 1)
  {
    if x == H {
      MulMonotone(H, y, H - 1);
    } else {
      MulMonotone(y, x, H - 1);
      MulMonotone(H - 1, y, H);
    }
  }

  /** Products of signed elements other than the two most negative ones. */
  lemma ProductRange(a: int, b: int, H: int)
    requires H > 0 && -H <= a < H && -H <= b < H && !(a == -H && b == -H)
    ensures -(H * (H - 1)) <= a * b <= H * (H - 1)
  {
    AbsProduct(a, b);
    AbsBound(Abs(a), Abs(b), H);
  }

  lemma AbsProduct(a: int, b: int)
    ensures Abs(a * b) == Abs(a) * Abs(b)
  {
    if a >= 0 && b >= 0 { MulMonotone(a, 0, b); }
    if a < 0 && b < 0 { MulMonotone(-a, 0, -b); }
    if a < 0 && b >= 0 { MulMonotone(-a, 0, b); }
    if a >= 0 && b < 0 { MulMonotone(a, 0, -b); }
  }

  lemma ExactNotRounded(v: int, d: nat, rm: Vxrm)
    requires v % Pow2(d) == 0
    ensures RoundingIncrement(v, d, rm) == 0
  {
    if d > 0 {
      Half(v, d);
    }
  }

  /** The quotient of such a product; the largest one leaves no remainder. */
  lemma QuotientFits(P: int, H: int, q: int, r: int)
    requires H >= 2 && P == q * H + r && 0 <= r < H && -(H * (H - 1)) <= P <= H * (H - 1)
    ensures -H <= q < H && (q == H - 1 ==> r == 0)
  {
    Distribute(H, H, -1);
    if q >= H {
      MulMonotone(H, H, q);
    }
    if q < -H {
      MulMonotone(H, q, -H);
    }
  }

  lemma IncrementIsBit(v: int, d: nat, rm: Vxrm)
    ensures 0 <= RoundingIncrement(v, d, rm) <= 1
  {
  }

  /** Such a product fits after shifting and rounding. */
  lemma RoundedFits(P: int, d: nat, H: int, rm: Vxrm)
    requires H == Pow2(d) && H >= 2 && -(H * (H - 1)) <= P <= H * (H - 1)
    ensures -H <= Round(P, d, rm) < H
  {
    DivMod(P, H);
    QuotientFits(P, H, P / H, P % H);
    IncrementIsBit(P, d, rm);
    if P / H == H - 1 {
      ExactNotRounded(P, d, rm);
    }
  }

  lemma RoundSquare(d: nat, rm: Vxrm)
    ensures Round(Pow2(d) * Pow2(d), d, rm) == Pow2(d)
  {
    DivModUnique(Pow2(d) * Pow2(d), Pow2(d), Pow2(d), 0);
    ExactNotRounded(Pow2(d) * Pow2(d), d, rm);
  }

  lemma MostNegative(x: int, n: nat)
    requires n > 0 && x % Pow2(n) == Pow2(n - 1)
    ensures SignExtend(x, n) == -Pow2(n - 1)
  {
  }

  lemma SmulClips(op2: int, op1: int, n: nat, rm: Vxrm)
    requires Width(n) && op2 % Pow2(n) == Pow2(n - 1) && op1 % Pow2(n) == Pow2(n - 1)
    ensures Round(SignExtend(op2, n) * SignExtend(op1, n), n - 1, rm) == Pow2(n - 1)
    ensures Smul(op2, op1, n, rm) == Clipped(Pow2(n - 1) - 1, true)
  {
    MostNegative(op2, n);
    MostNegative(op1, n);
    RoundSquare(n - 1, rm);
    assert (-Pow2(n - 1)) * (-Pow2(n - 1)) == Pow2(n - 1) * Pow2(n - 1);
  }

  lemma SmulFits(op2: int, op1: int, n: nat, rm: Vxrm)
    requires Width(n) && !(op2 % Pow2(n) == Pow2(n - 1) && op1 % Pow2(n) == Pow2(n - 1))
    ensures -Pow2(n - 1) <= Round(SignExtend(op2, n) * SignExtend(op1, n), n - 1, rm) < Pow2(n - 1)
  {
    var H, K := WidthFacts(n);
    SignExtendRange(op2, n);
    SignExtendRange(op1, n);
    ProductRange(SignExtend(op2, n), SignExtend(op1, n), H);
    RoundedFits(SignExtend(op2, n) * SignExtend(op1, n), n - 1, H, rm);
  }

  lemma SmulOperand(x: int, n: nat)
    requires Width(n)
    ensures Operand(SignExtend(x, n), true)
  {
    SignExtendRange(x, n);
    Pow2Monotone(n - 1, 63);
    Pow2Values();
    assert Pow2(64) == 2 * Pow2(63);
  }

  lemma SmulValue(op2: int, op1: int, n: nat, rm: Vxrm)
    requires Width(n) && !(op2 % Pow2(n) == Pow2(n - 1) && op1 % Pow2(n) == Pow2(n - 1))
    ensures var x := Round(SignExtend(op2, n) * SignExtend(op1, n), n - 1, rm);
            Smul(op2, op1, n, rm) == Clipped(x % TWO64, false)
  {
    SmulOperand(op2, n);
    SmulOperand(op1, n);
    MultiplyExact(SignExtend(op2, n), SignExtend(op1, n), true, true, n - 1, true, rm);
  }

  lemma FitsClipped(c: Clipped, x: int, n: nat)
    requires Width(n) && -Pow2(n - 1) <= x < Pow2(n - 1) && c == Clipped(x % TWO64, false)
    ensures ClippedTo(c, x, n, true)
  {
    LowBits(x, n);
  }

  lemma LargestClipped(c: Clipped, x: int, n: nat)
    requires n > 0 && x == Pow2(n - 1) && c == Clipped(Pow2(n - 1) - 1, true)
    ensures ClippedTo(c, x, n, true)
  {
  }

  /**
    vSmul is the exact product of the signed elements, shifted with rounding and then clipped, and it saturates if and
    only if clipping changes the value.
   */
  lemma {:induction false} SmulExact(op2: int, op1: int, n: nat, rm: Vxrm)
    requires Width(n)
    ensures ClippedTo(Smul(op2, op1, n, rm), Round(SignExtend(op2, n) * SignExtend(op1, n), n - 1, rm), n, true)
  {
    var c, x := Smul(op2, op1, n, rm), Round(SignExtend(op2, n) * SignExtend(op1, n), n - 1, rm);
    if op2 % Pow2(n) == Pow2(n - 1) && op1 % Pow2(n) == Pow2(n - 1) {
      SmulClips(op2, op1, n, rm);
      LargestClipped(c, x, n);
    } else {
      SmulFits(op2, op1, n, rm);
      SmulValue(op2, op1, n, rm);
      FitsClipped(c, x, n);
    }
  }
}
