/**
  Addition and subtraction with carry of vector elements, and their chaining to any number of words.
 */
module VCarry {
  import opened Bits
  import opened VAverage

  /** vAdc; the result is written to an element of n bits. */
  function Adc(op2: int, op1: int, carry: bool): int { (op2 + op1 + Bit(carry)) % TWO64 }

  /** vMadc. */
  predicate Madc(op2: int, op1: int, n: nat, carry: bool)
    requires Width(n)
  {
    var res := (SignExtend(op2, n) + SignExtend(op1, n)) % TWO64;
    var o1, o2, r := Msb(op1, n), Msb(op2, n), Msb(res, n);
    (o1 && o2) || (o1 && !o2 && !r) || (!o1 && o2 && !r) || (carry && res == TWO64 - 1)
  }

  /** vSbc. */
  function Sbc(op2: int, op1: int, borrow: bool): int { (op2 - op1 - Bit(borrow)) % TWO64 }

  /** vMsbc. */
  predicate Msbc(op2: int, op1: int, n: nat, borrow: bool)
    requires Width(n)
  {
    var res := (SignExtend(op2, n) - SignExtend(op1, n)) % TWO64;
    var o1, o2, r := Msb(op1, n), Msb(op2, n), Msb(res, n);
    (o1 && !o2) || (!o1 && !o2 && r) || (o1 && o2 && r) || (borrow && res == 0)
  }

  /** The element-wide bits of a sum or difference do not depend on sign extension. */
  lemma SignedResult(sx: int, sy: int, x: int, y: int, k: int, H: int, K: int)
    requires H > 0 && K > 0 && TWO64 == K * (2 * H) && sx + sy == x + y + k * (2 * H)
    ensures (sx + sy) % TWO64 % (2 * H) == (x + y) % (2 * H)
  {
    ModMod(sx + sy, 2 * H, K);
    ModAddMultiple(x + y, k, 2 * H);
  }

  /** Sums and differences of sign-extended elements, with x and y the unsigned elements. */
  lemma SignedSum(sx: int, sy: int, x: int, y: int, H: int, K: int)
    requires H > 0 && K > 0 && TWO64 == K * (2 * H) && 0 <= x < 2 * H && 0 <= y < 2 * H
    requires sx == (if x >= H then x - 2 * H else x) && sy == (if y >= H then y - 2 * H else y)
    ensures (sx + sy) % TWO64 % (2 * H) == SumOf(x, y, H)
    ensures (sx - sy) % TWO64 % (2 * H) == DiffOf(x, y, H)
  {
    SignedResult(sx, sy, x, y, Bit(x < H) + Bit(y < H) - 2, H, K);
    SignedResult(sx, -sy, x, -y, Bit(x < H) - Bit(y < H), H, K);
    SumCases(x, y, H);
  }

  /** All ones and all zeros are recognized in 64 bits, whatever the width. */
  lemma Ends(t: int)
    requires -TWO64 < t < TWO64
    ensures t != TWO64 - 1 ==> (t % TWO64 == TWO64 - 1 <==> t == -1)
    ensures t % TWO64 == 0 <==> t == 0
  {
    DivModUnique(t, TWO64, if t < 0 then -1 else 0, if t < 0 then t + TWO64 else t);
  }

  lemma ElementFacts(op: int, n: nat, H: int)
    requires Width(n) && H == Pow2(n - 1) && Pow2(n) == 2 * H
    ensures var x := op % (2 * H);
            (Msb(op, n) <==> x >= H) && SignExtend(op, n) == (if x >= H then x - 2 * H else x)
  {
    MsbIs(op, n, H);
  }

  /** The bits of a sum that its carry is derived from. */
  lemma SumBits(sx: int, sy: int, x: int, y: int, n: nat, H: int, K: int)
    requires Width(n) && H == Pow2(n - 1) && H > 0 && K > 0 && TWO64 == K * (2 * H) && 0 <= x < 2 * H && 0 <= y < 2 * H
    requires sx == (if x >= H then x - 2 * H else x) && sy == (if y >= H then y - 2 * H else y)
    ensures var res := (sx + sy) % TWO64;
            && (Msb(res, n) <==> SumOf(x, y, H) >= H)
            && (res == TWO64 - 1 <==> x + y == 2 * H - 1)
  {
    SignedSum(sx, sy, x, y, H, K);
    MsbIs((sx + sy) % TWO64, n, H);
    WithinWord(H, K);
    if sx + sy > -TWO64 {
      Ends(sx + sy);
    }
  }

  /** The bits of a difference that its borrow is derived from. */
  lemma DiffBits(sx: int, sy: int, x: int, y: int, n: nat, H: int, K: int)
    requires Width(n) && H == Pow2(n - 1) && H > 0 && K > 0 && TWO64 == K * (2 * H) && 0 <= x < 2 * H && 0 <= y < 2 * H
    requires sx == (if x >= H then x - 2 * H else x) && sy == (if y >= H then y - 2 * H else y)
    ensures var res := (sx - sy) % TWO64;
            && (Msb(res, n) <==> DiffOf(x, y, H) >= H)
            && (res == 0 <==> x == y)
  {
    SignedSum(sx, sy, x, y, H, K);
    MsbIs((sx - sy) % TWO64, n, H);
    WithinWord(H, K);
    Ends(sx - sy);
  }

  lemma WithinWord(H: int, K: int)
    requires H > 0 && K > 0 && TWO64 == K * (2 * H)
    ensures 2 * H <= TWO64
  {
    MulMonotone(2 * H, 1, K);
  }

  /** The elements x and y of the operands, and the bits of their sum and difference. */
  lemma CarryBits(op2: int, op1: int, n: nat) returns (x: int, y: int, H: int)
    requires Width(n)
    ensures x == op2 % Pow2(n) && y == op1 % Pow2(n) && Pow2(n) == 2 * H && 0 <= x < 2 * H && 0 <= y < 2 * H
    ensures (Msb(op2, n) <==> x >= H) && (Msb(op1, n) <==> y >= H)
    ensures var res := (SignExtend(op2, n) + SignExtend(op1, n)) % TWO64;
            && (Msb(res, n) <==> SumOf(x, y, H) >= H)
            && (res == TWO64 - 1 <==> x + y == 2 * H - 1)
    ensures var res := (SignExtend(op2, n) - SignExtend(op1, n)) % TWO64;
            && (Msb(res, n) <==> DiffOf(x, y, H) >= H)
            && (res == 0 <==> x == y)
  {
    var K;
    H, K := WidthFacts(n);
    x, y := op2 % (2 * H), op1 % (2 * H);
    ElementFacts(op2, n, H);
    ElementFacts(op1, n, H);
    SumBits(SignExtend(op2, n), SignExtend(op1, n), x, y, n, H, K);
    DiffBits(SignExtend(op2, n), SignExtend(op1, n), x, y, n, H, K);
  }

  lemma MadcIs(op2: int, op1: int, n: nat, carry: bool)
    requires Width(n)
    ensures Madc(op2, op1, n, carry) <==> op2 % Pow2(n) + op1 % Pow2(n) + Bit(carry) >= Pow2(n)
  {
    var x, y, H := CarryBits(op2, op1, n);
  }

  lemma MsbcIs(op2: int, op1: int, n: nat, borrow: bool)
    requires Width(n)
    ensures Msbc(op2, op1, n, borrow) <==> op2 % Pow2(n) - op1 % Pow2(n) - Bit(borrow) < 0
  {
    var x, y, H := CarryBits(op2, op1, n);
  }

  /** Written elements, as sums and differences of elements. */
  lemma LowSum(op2: int, op1: int, c: int, n: nat)
    requires Width(n)
    ensures (op2 + op1 + c) % TWO64 % Pow2(n) == (op2 % Pow2(n) + op1 % Pow2(n) + c) % Pow2(n)
  {
    var H, K := WidthFacts(n);
    var M := Pow2(n);
    ModMod(op2 + op1 + c, M, K);
    ModSum(op2, op1, M);
    AddMod(op2 + op1, op2 % M + op1 % M, c, M);
  }

  lemma LowDifference(op2: int, op1: int, c: int, n: nat)
    requires Width(n)
    ensures (op2 - op1 - c) % TWO64 % Pow2(n) == (op2 % Pow2(n) - op1 % Pow2(n) - c) % Pow2(n)
  {
    var H, K := WidthFacts(n);
    var M := Pow2(n);
    ModMod(op2 - op1 - c, M, K);
    ModSum(op2, op1, M);
    AddMod(op2 - op1, op2 % M - op1 % M, -c, M);
  }

  lemma WithCarry(s: int, M: int, out: bool)
    requires 0 <= s < 2 * M && (out <==> s >= M)
    ensures s % M + Bit(out) * M == s
  {
    DivModUnique(s, M, Bit(out), s - Bit(out) * M);
  }

  lemma WithBorrow(s: int, M: int, out: bool)
    requires -M <= s < M && (out <==> s < 0)
    ensures s % M - Bit(out) * M == s
  {
    DivModUnique(s, M, -Bit(out), s + Bit(out) * M);
  }

  /** Full adder: the written element and the carry out are the exact sum of the elements and the carry in. */
  lemma AdderExact(op2: int, op1: int, n: nat, carry: bool)
    requires Width(n)
    ensures Adc(op2, op1, carry) % Pow2(n) + Bit(Madc(op2, op1, n, carry)) * Pow2(n)
            == op2 % Pow2(n) + op1 % Pow2(n) + Bit(carry)
  {
    MadcIs(op2, op1, n, carry);
    LowSum(op2, op1, Bit(carry), n);
    WithCarry(op2 % Pow2(n) + op1 % Pow2(n) + Bit(carry), Pow2(n), Madc(op2, op1, n, carry));
  }

  /** Full subtractor. */
  lemma SubtractorExact(op2: int, op1: int, n: nat, borrow: bool)
    requires Width(n)
    ensures Sbc(op2, op1, borrow) % Pow2(n) - Bit(Msbc(op2, op1, n, borrow)) * Pow2(n)
            == op2 % Pow2(n) - op1 % Pow2(n) - Bit(borrow)
  {
    MsbcIs(op2, op1, n, borrow);
    LowDifference(op2, op1, Bit(borrow), n);
    WithBorrow(op2 % Pow2(n) - op1 % Pow2(n) - Bit(borrow), Pow2(n), Msbc(op2, op1, n, borrow));
  }

  // ---------------------------------------------------------------- chains

  /** The number whose words, lowest first, are the elements of ws. */
  function Value(ws: seq<int>, n: nat): int {
    if ws == [] then 0 else ws[0] % Pow2(n) + Pow2(n) * Value(ws[1..], n)
  }

  /** Base of the word above the given ones. */
  function Base(words: nat, n: nat): int { if words == 0 then 1 else Pow2(n) * Base(words - 1, n) }

  /** Add word by word, each with the carry of the word below. */
  method AddWords(xs: seq<int>, ys: seq<int>, n: nat, carryIn: bool) returns (sum: seq<int>, carryOut: bool)
    requires Width(n) && |xs| == |ys|
    ensures |sum| == |xs|
    ensures Value(sum, n) + Bit(carryOut) * Base(|xs|, n) == Value(xs, n) + Value(ys, n) + Bit(carryIn)
    decreases |xs|
  {
    sum, carryOut := [], carryIn;
    if xs != [] {
      var word, carry := Adc(xs[0], ys[0], carryIn), Madc(xs[0], ys[0], n, carryIn);
      var rest;
      rest, carryOut := AddWords(xs[1..], ys[1..], n, carry);
      AddStep(xs, ys, word, rest, n, carryIn, carry, carryOut);
      sum := [word] + rest;
    }
  }

  lemma AddStep(xs: seq<int>, ys: seq<int>, word: int, rest: seq<int>, n: nat, carryIn: bool, carry: bool, carryOut: bool)
    requires Width(n) && xs != [] && ys != []
    requires word == Adc(xs[0], ys[0], carryIn) && carry == Madc(xs[0], ys[0], n, carryIn)
    requires Value(rest, n) + Bit(carryOut) * Base(|xs| - 1, n) == Value(xs[1..], n) + Value(ys[1..], n) + Bit(carry)
    ensures Value([word] + rest, n) + Bit(carryOut) * Base(|xs|, n) == Value(xs, n) + Value(ys, n) + Bit(carryIn)
  {
    AdderExact(xs[0], ys[0], n, carryIn);
    assert ([word] + rest)[1..] == rest;
    ChainStep(Pow2(n), word % Pow2(n), Value(rest, n), xs[0] % Pow2(n), Value(xs[1..], n), ys[0] % Pow2(n), Value(ys[1..], n),
              Bit(carryIn), Bit(carry), Bit(carryOut), Base(|xs| - 1, n));
  }

  /** Subtract word by word, each with the borrow of the word below. */
  method SubWords(xs: seq<int>, ys: seq<int>, n: nat, borrowIn: bool) returns (diff: seq<int>, borrowOut: bool)
    requires Width(n) && |xs| == |ys|
    ensures |diff| == |xs|
    ensures Value(diff, n) - Bit(borrowOut) * Base(|xs|, n) == Value(xs, n) - Value(ys, n) - Bit(borrowIn)
    decreases |xs|
  {
    diff, borrowOut := [], borrowIn;
    if xs != [] {
      var word, borrow := Sbc(xs[0], ys[0], borrowIn), Msbc(xs[0], ys[0], n, borrowIn);
      var rest;
      rest, borrowOut := SubWords(xs[1..], ys[1..], n, borrow);
      SubStep(xs, ys, word, rest, n, borrowIn, borrow, borrowOut);
      diff := [word] + rest;
    }
  }

  lemma SubStep(xs: seq<int>, ys: seq<int>, word: int, rest: seq<int>, n: nat, borrowIn: bool, borrow: bool, borrowOut: bool)
    requires Width(n) && xs != [] && ys != []
    requires word == Sbc(xs[0], ys[0], borrowIn) && borrow == Msbc(xs[0], ys[0], n, borrowIn)
    requires Value(rest, n) - Bit(borrowOut) * Base(|xs| - 1, n) == Value(xs[1..], n) - Value(ys[1..], n) - Bit(borrow)
    ensures Value([word] + rest, n) - Bit(borrowOut) * Base(|xs|, n) == Value(xs, n) - Value(ys, n) - Bit(borrowIn)
  {
    SubtractorExact(xs[0], ys[0], n, borrowIn);
    assert ([word] + rest)[1..] == rest;
    ChainStep(Pow2(n), xs[0] % Pow2(n), Value(xs[1..], n), word % Pow2(n), Value(rest, n), ys[0] % Pow2(n), Value(ys[1..], n),
              Bit(borrowIn), Bit(borrow), Bit(borrowOut), Base(|xs| - 1, n));
  }

  /** From the equations of the lowest word and of the words above it to that of the whole number. */
  lemma ChainStep(M: int, s: int, S: int, x: int, X: int, y: int, Y: int, c: int, d: int, e: int, B: int)
    requires s + d * M == x + y + c && S + e * B == X + Y + d
    ensures (s + M * S) + e * (M * B) == (x + M * X) + (y + M * Y) + c
  {
    assert e * (M * B) == M * (e * B);
    Distribute(M, S, e * B);
    Distribute(M, X + Y, d);
    Distribute(M, X, Y);
  }
}
